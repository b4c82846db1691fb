/** The argument list of a `codemo(...)` fence attribute: `focus` line
    ranges, the escaped `input` text, and the rendering of component props. */
module CodemoArgs {
  import opened Wrappers
  import opened Strings

  /** Focus entries are numbers, `None` standing for the `NaN` a
      non-numeric plain part produces; `input` is `None` when the key was
      given without `=`. */
  datatype Args = Args(focus: seq<Option<int>>, input: Option<string>)

  const DefaultArgs := Args([], Some(""))
  const MissingFocusError := "Expect argument for \"focus\" param but nothing found"

  /** `a, a+1, ..., b`. */
  function Range(a: int, b: int): (r: seq<Option<int>>)
    requires a <= b
    ensures |r| == b - a + 1
    ensures forall i :: 0 <= i < |r| ==> r[i] == Some(a + i)
    ensures forall x :: Some(x) in r <==> a <= x <= b
    ensures forall i, j :: 0 <= i < j < |r| ==> r[i].value < r[j].value
  {
    var r := seq(b - a + 1, i => Some(a + i));
    assert forall x :: a <= x <= b ==> r[x - a] == Some(x);
    r
  }

  /** One `/`-separated focus part: `a-b` (dash after the first character)
      is an inclusive range, anything else a single line. A negative start
      or line, or an end before the start, is an error; `NaN` compares false
      with everything, so a non-numeric bound yields no lines and a
      non-numeric line yields `NaN`. */
  function FocusPart(part: string): (r: Result<seq<Option<int>>>)
    ensures r.Err? ==> r.error == "invalid focus: " + part
    ensures r.Ok? ==> forall i :: 0 <= i < |r.value| && r.value[i].Some? ==> r.value[i].value >= 0
  {
    var dash := IndexOf(part, '-');
    if dash > 0 then RangeLines(part, ParseInt(part[..dash]), ParseInt(part[dash + 1..]))
    else
      var line := ParseInt(part);
      if line.Some? && line.value < 0 then Err("invalid focus: " + part) else Ok([line])
  }

  /** The lines of a range part with bounds `start` and `end`. */
  function RangeLines(part: string, start: Option<int>, end: Option<int>): (r: Result<seq<Option<int>>>)
    ensures r.Err? ==> r.error == "invalid focus: " + part
    ensures r.Ok? ==> forall i :: 0 <= i < |r.value| ==> r.value[i].Some? && r.value[i].value >= 0
  {
    if (start.Some? && start.value < 0) || (start.Some? && end.Some? && end.value < start.value) then
      Err("invalid focus: " + part)
    else if start.Some? && end.Some? then Ok(Range(start.value, end.value))
    else Ok([])
  }

  /** Reference definition: the lists concatenated in order. */
  function Flat<T>(xs: seq<seq<T>>): seq<T> {
    if |xs| == 0 then [] else xs[0] + Flat(xs[1..])
  }

  /** The expansion of every part, when every part is valid. */
  function Expansions(parts: seq<string>): seq<seq<Option<int>>>
    requires forall i :: 0 <= i < |parts| ==> FocusPart(parts[i]).Ok?
  {
    seq(|parts|, i requires 0 <= i < |parts| => FocusPart(parts[i]).value)
  }

  /** The focus parts expanded and concatenated in order (`flatMap`); the
      first invalid part aborts. */
  function FocusParts(parts: seq<string>): (r: Result<seq<Option<int>>>)
    ensures r.Ok? <==> forall i :: 0 <= i < |parts| ==> FocusPart(parts[i]).Ok?
    ensures r.Ok? ==> r.value == Flat(Expansions(parts))
    ensures r.Err? ==> FirstError(parts, r.error)
  {
    if |parts| == 0 then Ok([])
    else
      match FocusPart(parts[0])
      case Err(e) => Err(e)
      case Ok(lines) =>
        var rest := FocusParts(parts[1..]);
        assert forall i :: 1 <= i < |parts| ==> parts[i] == parts[1..][i - 1];
        match rest
        case Err(e) =>
          FirstErrorCons(parts, e);
          Err(e)
        case Ok(more) =>
          ExpansionsCons(parts);
          Ok(lines + more)
  }

  /** What each part gives on its own. */
  function Outcomes(parts: seq<string>): (r: seq<Result<seq<Option<int>>>>)
    ensures |r| == |parts|
    ensures forall i :: 0 <= i < |parts| ==> r[i] == FocusPart(parts[i])
  {
    seq(|parts|, i requires 0 <= i < |parts| => FocusPart(parts[i]))
  }

  /** Some outcome is the first to fail, with error `e`. */
  ghost predicate FirstErrorIn<T>(rs: seq<Result<T>>, e: string) {
    exists i :: 0 <= i < |rs| && rs[i] == Err(e) && forall j :: 0 <= j < i ==> rs[j].Ok?
  }

  /** Some part is the first to fail. */
  ghost predicate FirstError(parts: seq<string>, e: string) {
    FirstErrorIn(Outcomes(parts), e)
  }

  lemma FirstErrorInCons<T>(rs: seq<Result<T>>, e: string)
    requires |rs| > 0 && rs[0].Ok? && FirstErrorIn(rs[1..], e)
    ensures FirstErrorIn(rs, e)
  {
    var i :| 0 <= i < |rs[1..]| && rs[1..][i] == Err(e) && forall j :: 0 <= j < i ==> rs[1..][j].Ok?;
    assert rs[i + 1] == Err(e);
    forall j | 0 <= j < i + 1 ensures rs[j].Ok? {
      if j > 0 {
        assert rs[j] == rs[1..][j - 1];
      }
    }
  }

  lemma FirstErrorCons(parts: seq<string>, e: string)
    requires |parts| > 0 && FocusPart(parts[0]).Ok? && FirstError(parts[1..], e)
    ensures FirstError(parts, e)
  {
    assert Outcomes(parts)[1..] == Outcomes(parts[1..]);
    FirstErrorInCons(Outcomes(parts), e);
  }

  lemma ExpansionsCons(parts: seq<string>)
    requires |parts| > 0 && forall i :: 0 <= i < |parts| ==> FocusPart(parts[i]).Ok?
    ensures Flat(Expansions(parts)) == FocusPart(parts[0]).value + Flat(Expansions(parts[1..]))
  {
    assert Expansions(parts)[1..] == Expansions(parts[1..]);
  }

  /** A range written with two decimal numbers expands to every line between
      them, or is rejected when it runs backwards. */
  lemma FocusRange(a: nat, b: nat)
    ensures var part := NatToString(a) + "-" + NatToString(b);
            FocusPart(part) == if a <= b then Ok(Range(a, b)) else Err("invalid focus: " + part)
  {
    var sa, sb := NatToString(a), NatToString(b);
    NoDashInNumber(a);
    ParseIntNatToString(a);
    ParseIntNatToString(b);
    FocusPartRange(sa + "-" + sb, sa, sb, a, b);
  }

  lemma FocusPartRange(part: string, sa: string, sb: string, a: int, b: int)
    requires part == sa + "-" + sb && |sa| > 0 && '-' !in sa
    requires ParseInt(sa) == Some(a) && ParseInt(sb) == Some(b) && a >= 0
    ensures FocusPart(part) == RangeLines(part, Some(a), Some(b))
  {
    Pieces(sa, '-', sb);
    IndexOfAt(part, '-', |sa|);
    FocusPartAt(part, |sa|, a, b);
  }

  lemma FocusPartAt(part: string, d: nat, a: int, b: int)
    requires 0 < d < |part| && IndexOf(part, '-') == d
    requires ParseInt(part[..d]) == Some(a) && ParseInt(part[d + 1..]) == Some(b) && a >= 0
    ensures FocusPart(part) == RangeLines(part, Some(a), Some(b))
  {
  }

  lemma NoDashInNumber(n: nat)
    ensures '-' !in NatToString(n)
  {
    var s := NatToString(n);
    forall k | 0 <= k < |s| ensures s[k] != '-' {
      assert IsDigit(s[k]);
    }
  }

  /** A single decimal line number is kept as is. */
  lemma FocusLine(n: nat)
    ensures FocusPart(NatToString(n)) == Ok([Some(n)])
  {
    NoDashInNumber(n);
    ParseIntNatToString(n);
  }

  /** A dash in front makes a negative line, which is rejected. */
  lemma FocusNegative(n: nat)
    requires n > 0
    ensures FocusPart("-" + NatToString(n)).Err?
  {
    ParseIntNegNat(n);
    FocusPartNegative("-" + NatToString(n));
  }

  lemma FocusPartNegative(part: string)
    requires |part| > 0 && part[0] == '-'
    requires ParseInt(part).Some? && ParseInt(part).value < 0
    ensures FocusPart(part) == Err("invalid focus: " + part)
  {
    assert IndexOf(part, '-') == 0;
  }

  /** The `input` value decoded by seven global replacements, in this order:
      `_` to space, `;` to `,`, `\,` to `;`, `\n` to a newline, `\ ` to `_`,
      `\,` to `,`, and `\\` to `\`. */
  function Unescape(v: string): string {
    var s1 := ReplaceAll(v, "_", " ");
    var s2 := ReplaceAll(s1, ";", ",");
    var s3 := ReplaceAll(s2, "\\,", ";");
    var s4 := ReplaceAll(s3, "\\n", "\n");
    var s5 := ReplaceAll(s4, "\\ ", "_");
    var s6 := ReplaceAll(s5, "\\,", ",");
    ReplaceAll(s6, "\\\\", "\\")
  }

  /** Text free of `_`, `;` and `\` is not changed by decoding. */
  lemma UnescapePlain(v: string)
    requires '_' !in v && ';' !in v && '\\' !in v
    ensures Unescape(v) == v
  {
    assert ReplaceAll(v, "_", " ") == v;
    assert ReplaceAll(v, ";", ",") == v;
    assert ReplaceAll(v, "\\,", ";") == v;
    assert ReplaceAll(v, "\\n", "\n") == v;
    assert ReplaceAll(v, "\\ ", "_") == v;
    assert ReplaceAll(v, "\\,", ",") == v;
  }

  /** Because `;` is turned into `,` before `\,` is turned into `;`, the
      escape `\;` decodes to `;`. */
  lemma UnescapeSemicolon(v: string)
    requires v == "\\;"
    ensures Unescape(v) == ";"
  {
    assert ReplaceAll(v, "_", " ") == v;
    var s2 := ReplaceAll(v, ";", ",");
    assert s2 == "\\," by {
      assert v[..1] != ";" && v[1..] == ";";
      assert ReplaceAll(";", ";", ",") == "," by { assert ";"[1..] == ""; }
    }
    assert ReplaceAll(s2, "\\,", ";") == ";" by { assert s2[..2] == "\\," && s2[2..] == ""; }
  }

  /** Because `_` becomes a space before `\ ` becomes `_`, the escape `\_`
      decodes to `_`. */
  lemma UnescapeUnderscore(v: string)
    requires v == "\\_"
    ensures Unescape(v) == "_"
  {
    var s1 := ReplaceAll(v, "_", " ");
    assert s1 == "\\ " by {
      assert v[..1] != "_" && v[1..] == "_";
      assert ReplaceAll("_", "_", " ") == " " by { assert "_"[1..] == ""; }
    }
    assert ReplaceAll(s1, ";", ",") == s1;
    assert ReplaceAll(s1, "\\,", ";") == s1 by {
      assert s1[..2] != "\\," && s1[1..] == " ";
    }
    assert ReplaceAll(s1, "\\n", "\n") == s1 by {
      assert s1[..2] != "\\n" by { assert s1[1] != "\\n"[1]; }
      assert s1[1..] == " ";
    }
    assert ReplaceAll(s1, "\\ ", "_") == "_" by { assert s1[..2] == "\\ " && s1[2..] == ""; }
  }

  /** Steps three to seven leave text without backslashes alone. */
  lemma UnescapePlainTail(v: string)
    requires '\\' !in v
    ensures ReplaceAll(ReplaceAll(ReplaceAll(ReplaceAll(ReplaceAll(v, "\\,", ";"), "\\n", "\n"), "\\ ", "_"), "\\,", ","), "\\\\", "\\") == v
  {
  }

  /** One `key` or `key=value` entry, both sides trimmed; text after a second
      `=` is dropped. */
  function ParsePair(s: string): (r: (string, Option<string>))
    ensures '=' !in s ==> r == (Trim(s), None)
  {
    var parts := Split(s, '=');
    assert '=' !in s ==> parts == [s];
    (Trim(parts[0]), if |parts| >= 2 then Some(Trim(parts[1])) else None)
  }

  /** Apply the entries in order: later `focus`/`input` entries override
      earlier ones, and other keys are ignored. */
  function ApplyPairs(pairs: seq<(string, Option<string>)>, acc: Args): (r: Result<Args>)
    ensures (forall i :: 0 <= i < |pairs| ==> pairs[i].0 != "focus" && pairs[i].0 != "input") ==> r == Ok(acc)
  {
    if |pairs| == 0 then Ok(acc)
    else
      var (key, value) := pairs[0];
      assert forall i :: 1 <= i < |pairs| ==> pairs[i] == pairs[1..][i - 1];
      if key == "focus" then
        if value.None? then Err(MissingFocusError)
        else
          var focus :- FocusParts(Split(value.value, '/'));
          ApplyPairs(pairs[1..], acc.(focus := focus))
      else if key == "input" then
        ApplyPairs(pairs[1..], acc.(input := if value.None? then None else Some(Unescape(value.value))))
      else ApplyPairs(pairs[1..], acc)
  }

  /** A `focus` entry without `=` is an error. */
  lemma FocusWithoutValue(rest: seq<(string, Option<string>)>, acc: Args)
    ensures ApplyPairs([("focus", None)] + rest, acc) == Err(MissingFocusError)
  {
  }

  /** When the last entry is `input`, it decides the input, whatever came
      before it. */
  lemma {:induction false} LastInputWins(pairs: seq<(string, Option<string>)>, acc: Args)
    requires |pairs| > 0 && pairs[|pairs| - 1].0 == "input" && ApplyPairs(pairs, acc).Ok?
    ensures var v := pairs[|pairs| - 1].1;
            ApplyPairs(pairs, acc).value.input == if v.None? then None else Some(Unescape(v.value))
  {
    if |pairs| > 1 {
      var (key, value) := pairs[0];
      var acc' :=
        if key == "focus" && value.Some? then acc.(focus := FocusParts(Split(value.value, '/')).value)
        else if key == "input" then acc.(input := if value.None? then None else Some(Unescape(value.value)))
        else acc;
      assert ApplyPairs(pairs, acc) == ApplyPairs(pairs[1..], acc');
      assert pairs[1..][|pairs[1..]| - 1] == pairs[|pairs| - 1];
      LastInputWins(pairs[1..], acc');
    }
  }

  /** `parseCodemoArgs`: the entries between the first `(` (which must not be
      the first character) and the first `)` (which must come after it). */
  function ParseCodemoArgs(attr: string): (r: Result<Args>)
    ensures !(0 < IndexOf(attr, '(') < IndexOf(attr, ')')) ==> r == Ok(DefaultArgs)
  {
    var l := IndexOf(attr, '(');
    var rp := IndexOf(attr, ')');
    if l > 0 && rp > l then
      var pieces := Split(attr[l + 1..rp], ',');
      ApplyPairs(seq(|pieces|, i requires 0 <= i < |pieces| => ParsePair(pieces[i])), DefaultArgs)
    else Ok(DefaultArgs)
  }

  /** An attribute whose parentheses hold the single entry `input=v`: the
      input is `v` decoded, and no line is in focus. */
  lemma InputOnly(prefix: string, v: string)
    requires |prefix| > 0 && '(' !in prefix && ')' !in prefix
    requires '(' !in v && ')' !in v && ',' !in v && '=' !in v
    requires |v| > 0 ==> !IsSpace(v[0]) && !IsSpace(v[|v| - 1])
    ensures ParseCodemoArgs(prefix + "(input=" + v + ")") == Ok(Args([], Some(Unescape(v))))
  {
    var inner := "input=" + v;
    assert prefix + "(input=" + v + ")" == prefix + "(" + inner + ")";
    OneEntry(prefix, inner);
    InputPair(v);
  }

  /** Parentheses holding one entry: that entry alone is applied. */
  lemma OneEntry(prefix: string, inner: string)
    requires |prefix| > 0 && '(' !in prefix && ')' !in prefix
    requires '(' !in inner && ')' !in inner && ',' !in inner
    ensures ParseCodemoArgs(prefix + "(" + inner + ")") == ApplyPairs([ParsePair(inner)], DefaultArgs)
  {
    var attr := prefix + "(" + inner + ")";
    ParenPositions(prefix, inner);
    SplitLength(inner, ',');
    CountAbsent(inner, ',');
    assert Split(inner, ',') == [inner];
    var pairs := seq(1, i requires 0 <= i < 1 => ParsePair([inner][i]));
    assert pairs == [ParsePair(inner)];
  }

  lemma ParenPositions(prefix: string, inner: string)
    requires '(' !in prefix && ')' !in prefix && '(' !in inner && ')' !in inner
    ensures var attr := prefix + "(" + inner + ")";
            && IndexOf(attr, '(') == |prefix| && IndexOf(attr, ')') == |attr| - 1
            && attr[|prefix| + 1..|attr| - 1] == inner
  {
    var attr := prefix + "(" + inner + ")";
    assert attr[..|prefix|] == prefix;
    IndexOfAt(attr, '(', |prefix|);
    assert attr[..|attr| - 1] == prefix + "(" + inner;
    IndexOfAt(attr, ')', |attr| - 1);
  }

  lemma InputPair(v: string)
    requires '=' !in v
    requires |v| > 0 ==> !IsSpace(v[0]) && !IsSpace(v[|v| - 1])
    ensures ApplyPairs([ParsePair("input=" + v)], DefaultArgs) == Ok(Args([], Some(Unescape(v))))
  {
    InputPairText(v);
    ApplyInput(v);
  }

  lemma InputPairText(v: string)
    requires '=' !in v
    requires |v| > 0 ==> !IsSpace(v[0]) && !IsSpace(v[|v| - 1])
    ensures ParsePair("input=" + v) == ("input", Some(v))
  {
    SplitTwo("input", v, '=');
    assert "input=" + v == "input" + ['='] + v;
    assert Trim("input") == "input" by {
      TrimUnchanged("input");
    }
    TrimUnchanged(v);
  }

  lemma ApplyInput(v: string)
    ensures ApplyPairs([("input", Some(v))], DefaultArgs) == Ok(Args([], Some(Unescape(v))))
  {
    assert [("input", Some(v))][1..] == [];
  }

  /** A prop with a value that is present and non-empty (JavaScript truthy). */
  predicate Truthy(v: Option<string>) {
    v.Some? && v.value != ""
  }

  /** `name="value"` with both sides escaped, or nothing for a falsy value. */
  function PropPiece(name: string, value: Option<string>, escape: string -> string): string {
    if Truthy(value) then escape(name) + "=\"" + escape(value.value) + "\"" else ""
  }

  /** `toPropString`: the pieces joined by single spaces; falsy props leave
      an empty piece (and so an extra space) behind. */
  function ToPropString(props: seq<(string, Option<string>)>, escape: string -> string): string {
    Join(seq(|props|, i requires 0 <= i < |props| => PropPiece(props[i].0, props[i].1, escape)), " ")
  }

  /** With no truthy value, the prop string is only the separating spaces. */
  lemma {:induction false} PropStringAllFalsy(props: seq<(string, Option<string>)>, escape: string -> string)
    requires |props| > 0
    requires forall i :: 0 <= i < |props| ==> !Truthy(props[i].1)
    ensures ToPropString(props, escape) == Spaces(|props| - 1)
  {
    if |props| > 1 {
      var pieces := seq(|props|, i requires 0 <= i < |props| => PropPiece(props[i].0, props[i].1, escape));
      PropStringAllFalsy(props[1..], escape);
      assert pieces[1..] == seq(|props| - 1, i requires 0 <= i < |props| - 1 => PropPiece(props[1..][i].0, props[1..][i].1, escape));
      assert Spaces(|props| - 1) == " " + Spaces(|props| - 2);
    }
  }

  /** Appending one prop adds one space and its piece. */
  lemma PropStringAppend(props: seq<(string, Option<string>)>, name: string, value: Option<string>,
                         escape: string -> string)
    requires |props| > 0
    ensures ToPropString(props + [(name, value)], escape)
         == ToPropString(props, escape) + " " + PropPiece(name, value, escape)
  {
    var all := props + [(name, value)];
    var pieces := seq(|props|, i requires 0 <= i < |props| => PropPiece(props[i].0, props[i].1, escape));
    var allPieces := seq(|all|, i requires 0 <= i < |all| => PropPiece(all[i].0, all[i].1, escape));
    assert allPieces == pieces + [PropPiece(name, value, escape)];
    JoinAppendOne(pieces, PropPiece(name, value, escape), " ");
  }
}
