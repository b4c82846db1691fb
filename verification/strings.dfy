/** The JavaScript string operations the plugins rely on, written out as
    explicit definitions: character classes of regular expressions (`\s`,
    `\w`, `.`), `split`/`join` on a one-character separator, `trim`,
    `indexOf`, literal global `replace`, `parseInt` and number printing. */
module Strings {
  import opened Wrappers

  /** ECMAScript line terminators: what `.` refuses and `^`/`$` see in
      multi-line mode. */
  predicate IsLineTerminator(c: char) {
    c == '\n' || c == '\r' || c == '\U{2028}' || c == '\U{2029}'
  }

  /** The `\s` class (and what `trim` and `parseInt` skip): ECMAScript
      WhiteSpace plus LineTerminator. */
  predicate IsSpace(c: char) {
    || c == '\t' || c == '\U{0B}' || c == '\U{0C}' || c == ' '
    || c == '\U{A0}' || c == '\U{1680}' || ('\U{2000}' <= c <= '\U{200A}')
    || c == '\U{202F}' || c == '\U{205F}' || c == '\U{3000}' || c == '\U{FEFF}'
    || IsLineTerminator(c)
  }

  /** The `\w` class of a non-Unicode regular expression. */
  predicate IsWordChar(c: char) {
    ('a' <= c <= 'z') || ('A' <= c <= 'Z') || ('0' <= c <= '9') || c == '_'
  }

  predicate IsDigit(c: char) {
    '0' <= c <= '9'
  }

  predicate StartsWith(s: string, prefix: string) {
    |prefix| <= |s| && s[..|prefix|] == prefix
  }

  predicate EndsWith(s: string, suffix: string) {
    |suffix| <= |s| && s[|s| - |suffix|..] == suffix
  }

  /** `n` copies of the space character (`" ".repeat(n)`). */
  function Spaces(n: nat): (r: string)
    ensures |r| == n
    ensures forall k :: 0 <= k < n ==> r[k] == ' '
  {
    seq(n, _ => ' ')
  }

  /** Associativity of concatenation, stated on whole sequences so that a
      proof can apply it without the solver re-deriving it element-wise. */
  lemma Reassociate<T>(x: seq<T>, y: seq<T>, z: seq<T>)
    ensures x + (y + z) == (x + y) + z
  {
  }

  /** `(l + p) + j` regrouped as `l + (p + j)`, with every part named. */
  lemma Regroup<T>(x: seq<T>, y: seq<T>, l: seq<T>, p: seq<T>, j: seq<T>, w: seq<T>)
    requires x == y + j && y == l + p && w == p + j
    ensures x == l + w
  {
  }

  /** A prefix of a prefix is a prefix. */
  lemma PrefixPrefix<T>(t: seq<T>, m: nat, j: nat)
    requires j <= m <= |t|
    ensures t[..m][..j] == t[..j]
  {
  }

  /** A non-empty sequence is its head followed by its tail. */
  lemma HeadTail<T>(t: seq<T>)
    requires |t| > 0
    ensures t == [t[0]] + t[1..]
  {
  }

  /** The tail of a sequence built from its head. */
  lemma ConsTail<T>(x: T, t: seq<T>)
    ensures ([x] + t)[0] == x && ([x] + t)[1..] == t
  {
  }

  /** A sequence cut around its element at `j`. */
  lemma CutAround<T>(t: seq<T>, j: nat)
    requires j < |t|
    ensures t == t[..j] + [t[j]] + t[j + 1..]
  {
  }

  /** Concatenation of a list of strings, in order. */
  function Concat(parts: seq<string>): string {
    if |parts| == 0 then "" else parts[0] + Concat(parts[1..])
  }

  lemma ConcatAppend(a: seq<string>, b: seq<string>)
    ensures Concat(a + b) == Concat(a) + Concat(b)
  {
    if |a| > 0 {
      assert (a + b)[1..] == a[1..] + b;
      ConcatAppend(a[1..], b);
    } else {
      assert a + b == b;
    }
  }

  /** `parts.join(sep)`. */
  function Join(parts: seq<string>, sep: string): string {
    if |parts| == 0 then ""
    else if |parts| == 1 then parts[0]
    else parts[0] + sep + Join(parts[1..], sep)
  }

  lemma JoinAppendOne(parts: seq<string>, x: string, sep: string)
    requires |parts| > 0
    ensures Join(parts + [x], sep) == Join(parts, sep) + sep + x
  {
    if |parts| == 1 {
      assert (parts + [x])[1..] == [x];
    } else {
      assert (parts + [x])[1..] == parts[1..] + [x];
      JoinAppendOne(parts[1..], x, sep);
    }
  }

  /** Appending to the last piece appends to the joined text. */
  lemma JoinExtendLast(parts: seq<string>, x: string, sep: string)
    requires |parts| > 0
    ensures Join(parts[..|parts| - 1] + [parts[|parts| - 1] + x], sep) == Join(parts, sep) + x
  {
    if |parts| > 1 {
      var parts' := parts[..|parts| - 1] + [parts[|parts| - 1] + x];
      assert parts'[1..] == parts[1..][..|parts| - 2] + [parts[1..][|parts| - 2] + x];
      JoinExtendLast(parts[1..], x, sep);
    }
  }

  /** Number of occurrences of `c` in `s`. */
  function Count(s: string, c: char): nat {
    if |s| == 0 then 0 else (if s[0] == c then 1 else 0) + Count(s[1..], c)
  }

  lemma CountAppend(a: string, b: string, c: char)
    ensures Count(a + b, c) == Count(a, c) + Count(b, c)
  {
    if |a| > 0 {
      assert (a + b)[1..] == a[1..] + b;
      CountAppend(a[1..], b, c);
    } else {
      assert a + b == b;
    }
  }

  lemma CountAbsent(s: string, c: char)
    requires c !in s
    ensures Count(s, c) == 0
  {
    if |s| > 0 {
      CountAbsent(s[1..], c);
    }
  }

  /** Index of the first occurrence of `c` (`indexOf`), -1 when absent. */
  function IndexOf(s: string, c: char): (r: int)
    ensures -1 <= r < |s|
    ensures r == -1 <==> c !in s
    ensures 0 <= r ==> s[r] == c && c !in s[..r]
  {
    if |s| == 0 then -1
    else if s[0] == c then 0
    else
      var k := IndexOf(s[1..], c);
      assert s[1..][..if k < 0 then 0 else k] == s[1..if k < 0 then 1 else k + 1];
      if k < 0 then -1 else k + 1
  }

  /** `s.split(c)` for a one-character separator: the maximal pieces free of
      `c`, which joined back with `c` give `s`. */
  function Split(s: string, c: char): (r: seq<string>)
    ensures |r| >= 1
    ensures forall i :: 0 <= i < |r| ==> c !in r[i]
    ensures Join(r, [c]) == s
    decreases |s|
  {
    var i := IndexOf(s, c);
    if i < 0 then [s]
    else
      var rest := Split(s[i + 1..], c);
      assert s == s[..i] + [c] + s[i + 1..];
      [s[..i]] + rest
  }

  /** `split` gives one more piece than there are separators. */
  lemma {:induction false} SplitLength(s: string, c: char)
    ensures |Split(s, c)| == 1 + Count(s, c)
    decreases |s|
  {
    if c in s {
      SplitLength(s[IndexOf(s, c) + 1..], c);
      SplitAt(s, c);
      CountAt(s, c);
    } else {
      CountAbsent(s, c);
    }
  }

  lemma SplitAt(s: string, c: char)
    requires c in s
    ensures Split(s, c) == [s[..IndexOf(s, c)]] + Split(s[IndexOf(s, c) + 1..], c)
  {
  }

  /** `split` breaks `s` into several pieces exactly when `c` occurs in it. */
  lemma SplitSeveral(s: string, c: char)
    ensures |Split(s, c)| >= 2 <==> c in s
  {
    SplitLength(s, c);
    if c in s {
      CountAt(s, c);
    } else {
      CountAbsent(s, c);
    }
  }

  /** Counting past the first `c`. */
  lemma CountAt(s: string, c: char)
    requires c in s
    ensures Count(s, c) == 1 + Count(s[IndexOf(s, c) + 1..], c)
  {
    CountFrom(s, c, IndexOf(s, c));
  }

  lemma CountFrom(s: string, c: char, i: nat)
    requires i < |s| && s[i] == c && c !in s[..i]
    ensures Count(s, c) == 1 + Count(s[i + 1..], c)
  {
    assert s == s[..i] + s[i..];
    CountAppend(s[..i], s[i..], c);
    CountAbsent(s[..i], c);
    assert s[i..][0] == c && s[i..][1..] == s[i + 1..];
  }

  /** The first `c` is at `i` when `s[i]` is `c` and no earlier character is. */
  lemma IndexOfAt(s: string, c: char, i: nat)
    requires i < |s| && s[i] == c && c !in s[..i]
    ensures IndexOf(s, c) == i
  {
  }

  /** Two pieces without the separator, joined by it, split back apart. */
  lemma SplitTwo(a: string, b: string, c: char)
    requires c !in a && c !in b
    ensures Split(a + [c] + b, c) == [a, b]
  {
    var s := a + [c] + b;
    assert s[..|a|] == a;
    IndexOfAt(s, c, |a|);
    assert s[|a| + 1..] == b;
  }

  /** The text after the first `c`, as `s.split(c).slice(1).join(c)` gives it. */
  lemma SplitTailJoin(s: string, c: char)
    requires c in s
    ensures Join(Split(s, c)[1..], [c]) == s[IndexOf(s, c) + 1..]
  {
    var i := IndexOf(s, c);
    assert Split(s, c)[1..] == Split(s[i + 1..], c);
  }

  function Clamp(i: int, len: nat): (r: nat)
    ensures r <= len
  {
    if i < 0 then 0 else if i > len then len else i
  }

  /** `s.substring(start, end)`: both bounds clamped into the string, and
      swapped when the start lies after the end. */
  function Substring(s: string, start: int, end: int): (r: string)
    ensures 0 <= start <= end <= |s| ==> r == s[start..end]
    ensures end <= 0 ==> r == s[..Clamp(start, |s|)]
  {
    var a := Clamp(start, |s|);
    var b := Clamp(end, |s|);
    if a <= b then s[a..b] else s[b..a]
  }

  /** Cutting at any point before the end, `s.substring(0, e)` and
      `s.substring(e)` put back together give `s`; a negative point cuts
      off nothing. */
  lemma SubstringSplit(s: string, e: int)
    requires e < |s|
    ensures Substring(s, 0, e) + Substring(s, e, |s|) == s
  {
    if e <= 0 {
      assert Substring(s, 0, e) == s[..0];
      assert Substring(s, e, |s|) == s[0..|s|];
    } else {
      assert s == s[..e] + s[e..];
    }
  }

  /** `s.substring(e)` is the suffix from `e`. */
  lemma SubstringFrom(s: string, e: nat)
    requires e <= |s|
    ensures Substring(s, e, |s|) == s[e..]
  {
    assert s[e..|s|] == s[e..];
  }

  /** `s.substring(0, b)` and `s.substring(b, e)` put together give
      `s.substring(0, e)`, for a cut `b` inside the string. */
  lemma SubstringJoin(s: string, b: nat, e: int)
    requires b <= e && b < |s|
    ensures Substring(s, 0, b) + Substring(s, b, e) == Substring(s, 0, Clamp(e, |s|))
  {
    var c := Clamp(e, |s|);
    assert Substring(s, b, e) == s[b..c];
    assert s[..c] == s[..b] + s[b..c];
  }

  /** Leading `\s` characters removed. */
  function TrimStart(s: string): (r: string)
    ensures |r| <= |s| && r == s[|s| - |r|..]
    ensures |r| > 0 ==> !IsSpace(r[0])
    ensures forall k :: 0 <= k < |s| - |r| ==> IsSpace(s[k])
  {
    if |s| > 0 && IsSpace(s[0]) then TrimStart(s[1..]) else s
  }

  /** Trailing `\s` characters removed. */
  function TrimEnd(s: string): (r: string)
    ensures |r| <= |s| && r == s[..|r|]
    ensures |r| > 0 ==> !IsSpace(r[|r| - 1])
    ensures forall k :: |r| <= k < |s| ==> IsSpace(s[k])
  {
    if |s| > 0 && IsSpace(s[|s| - 1]) then TrimEnd(s[..|s| - 1]) else s
  }

  /** A string that neither begins nor ends with white space is its own
      trim. */
  lemma TrimUnchanged(s: string)
    requires |s| > 0 ==> !IsSpace(s[0]) && !IsSpace(s[|s| - 1])
    ensures Trim(s) == s
  {
    assert TrimStart(s) == s;
  }

  /** `s.trim()`. */
  function Trim(s: string): string {
    TrimEnd(TrimStart(s))
  }

  /** `s.replace(/pat/g, rep)` for a pattern without special characters:
      leftmost, non-overlapping occurrences, replaced in one pass. */
  function ReplaceAll(s: string, pat: string, rep: string): (r: string)
    requires |pat| > 0
    ensures pat[0] !in s ==> r == s
    decreases |s|
  {
    if |s| < |pat| then s
    else if s[..|pat|] == pat then rep + ReplaceAll(s[|pat|..], pat, rep)
    else
      [s[0]] + ReplaceAll(s[1..], pat, rep)
  }

  /** Where the pattern does not start, the first character is kept. */
  lemma ReplaceAllSkip(s: string, pat: string, rep: string)
    requires |pat| > 0 && |s| >= |pat| && s[..|pat|] != pat
    ensures ReplaceAll(s, pat, rep) == [s[0]] + ReplaceAll(s[1..], pat, rep)
  {
  }

  function DigitValue(c: char): nat
    requires IsDigit(c)
  {
    (c as int) - ('0' as int)
  }

  function DigitChar(d: nat): (c: char)
    requires d < 10
    ensures IsDigit(c) && DigitValue(c) == d
  {
    ('0' as int + d) as char
  }

  /** Decimal rendering of a number, as template literals and `join` print it. */
  function NatToString(n: nat): (r: string)
    ensures |r| > 0
    ensures forall k :: 0 <= k < |r| ==> IsDigit(r[k])
    ensures |r| > 1 ==> r[0] != '0'
  {
    if n < 10 then [DigitChar(n)] else NatToString(n / 10) + [DigitChar(n % 10)]
  }

  /** Value of a string of decimal digits. */
  function DigitsValue(s: string): nat
    requires forall k :: 0 <= k < |s| ==> IsDigit(s[k])
  {
    if |s| == 0 then 0 else DigitsValue(s[..|s| - 1]) * 10 + DigitValue(s[|s| - 1])
  }

  /** Length of the longest prefix made of characters satisfying `p`. */
  function RunLength(s: string, p: char -> bool): (n: nat)
    ensures n <= |s|
    ensures forall k :: 0 <= k < n ==> p(s[k])
    ensures n < |s| ==> !p(s[n])
  {
    if |s| > 0 && p(s[0]) then 1 + RunLength(s[1..], p) else 0
  }

  predicate IsHexDigit(c: char) {
    IsDigit(c) || ('a' <= c <= 'f') || ('A' <= c <= 'F')
  }

  function HexValue(c: char): nat
    requires IsHexDigit(c)
  {
    if IsDigit(c) then DigitValue(c)
    else if 'a' <= c <= 'f' then (c as int) - ('a' as int) + 10
    else (c as int) - ('A' as int) + 10
  }

  function HexDigitsValue(s: string): nat
    requires forall k :: 0 <= k < |s| ==> IsHexDigit(s[k])
  {
    if |s| == 0 then 0 else HexDigitsValue(s[..|s| - 1]) * 16 + HexValue(s[|s| - 1])
  }

  predicate HasHexPrefix(u: string) {
    |u| >= 2 && u[0] == '0' && (u[1] == 'x' || u[1] == 'X')
  }

  /** The longest run of decimal digits at the start of `u`, `None` if empty. */
  function DecimalPrefix(u: string): Option<nat> {
    var n := RunLength(u, IsDigit);
    if n == 0 then None else Some(DigitsValue(u[..n]))
  }

  /** The magnitude `parseInt` reads after the sign. */
  function Magnitude(u: string): Option<nat> {
    if HasHexPrefix(u) then
      var n := RunLength(u[2..], IsHexDigit);
      if n == 0 then None else Some(HexDigitsValue(u[2..][..n]))
    else DecimalPrefix(u)
  }

  /** The number `parseInt(s)` yields with no radix: leading `\s` skipped, an
      optional sign, a `0x`/`0X` prefix selecting base 16, then the longest run
      of digits; `None` stands for `NaN` (no digit found). */
  function ParseInt(s: string): Option<int> {
    var t := TrimStart(s);
    var signed := |t| > 0 && (t[0] == '-' || t[0] == '+');
    match Magnitude(if signed then t[1..] else t)
    case None => None
    case Some(m) => Some(if signed && t[0] == '-' then 0 - m else m as int)
  }

  lemma MagnitudeDigits(s: string)
    requires |s| > 0 && forall k :: 0 <= k < |s| ==> IsDigit(s[k])
    ensures Magnitude(s) == Some(DigitsValue(s))
  {
    assert !HasHexPrefix(s) by {
      if |s| >= 2 { assert IsDigit(s[1]); }
    }
    RunLengthAll(s, IsDigit);
    assert s[..|s|] == s;
  }

  /** A non-empty run of decimal digits reads back as its value. */
  lemma ParseIntDigits(s: string)
    requires |s| > 0 && forall k :: 0 <= k < |s| ==> IsDigit(s[k])
    ensures ParseInt(s) == Some(DigitsValue(s))
  {
    assert !IsSpace(s[0]);
    assert TrimStart(s) == s;
    MagnitudeDigits(s);
  }

  /** A minus sign in front of a printed number negates it. */
  lemma ParseIntNegNat(n: nat)
    ensures ParseInt("-" + NatToString(n)) == Some(0 - n)
  {
    MagnitudeNat(n);
    NegMagnitude(NatToString(n), n);
  }

  lemma MagnitudeNat(n: nat)
    ensures Magnitude(NatToString(n)) == Some(n)
  {
    MagnitudeDigits(NatToString(n));
    DigitsValueNatToString(n);
  }

  lemma NegMagnitude(s: string, m: nat)
    requires Magnitude(s) == Some(m)
    ensures ParseInt("-" + s) == Some(0 - m)
  {
    assert ("-" + s)[1..] == s;
    TrimStartNoSpace("-" + s);
  }

  lemma TrimStartNoSpace(t: string)
    requires |t| > 0 && !IsSpace(t[0])
    ensures TrimStart(t) == t
  {
  }

  /** Printing a number and reading it back with `parseInt` gives the number. */
  lemma ParseIntNatToString(n: nat)
    ensures ParseInt(NatToString(n)) == Some(n)
  {
    ParseIntDigits(NatToString(n));
    DigitsValueNatToString(n);
  }

  /** The pieces of `a + [c] + b`, recovered by position. */
  lemma Pieces(a: string, c: char, b: string)
    ensures (a + [c] + b)[..|a|] == a && (a + [c] + b)[|a|] == c && (a + [c] + b)[|a| + 1..] == b
  {
  }

  /** A string with `p` at offset `n` is its first `n` characters, `p`,
      and the rest. */
  lemma SplitAround(u: string, n: nat, p: string)
    requires n + |p| <= |u| && u[n..][..|p|] == p
    ensures u == u[..n] + (p + u[n + |p|..])
  {
    var v := u[n..];
    assert v == v[..|p|] + v[|p|..];
    assert v[|p|..] == u[n + |p|..];
    assert u == u[..n] + v;
  }

  /** A run of `n` characters satisfying `p`, ended by the end of the string
      or by one that does not, has length exactly `n`. */
  lemma RunLengthExact(s: string, p: char -> bool, n: nat)
    requires n <= |s| && forall k :: 0 <= k < n ==> p(s[k])
    requires n < |s| ==> !p(s[n])
    ensures RunLength(s, p) == n
  {
    if n > 0 {
      RunLengthExact(s[1..], p, n - 1);
    }
  }

  lemma RunLengthAll(s: string, p: char -> bool)
    requires forall k :: 0 <= k < |s| ==> p(s[k])
    ensures RunLength(s, p) == |s|
  {
  }

  lemma {:induction false} DigitsValueNatToString(n: nat)
    ensures DigitsValue(NatToString(n)) == n
  {
    if n >= 10 {
      var s := NatToString(n);
      assert s[..|s| - 1] == NatToString(n / 10);
      DigitsValueNatToString(n / 10);
    }
  }
}
