/** A parser for the Python literal forms `ast.literal_eval` accepts that occur
    in list-valued text columns: string literals (optionally `u`-prefixed, with
    escapes and implicit concatenation), `None`, `True`, `False`, decimal
    integers with an optional sign, lists, tuples and parenthesised
    expressions.  Any other input is a parse failure. */
module Literal {
  import opened Wrappers
  import opened PyValues
  import opened Seqs

  /** Whitespace the tokenizer skips between tokens. Inside brackets
      (`nested`) line breaks are skipped too; at the top level a line break
      ends the expression, so it is not a blank there. */
  predicate IsBlank(c: char, nested: bool) {
    c == ' ' || c == '\t' || c as int == 0x0C || (nested && (c == '\n' || c == '\r'))
  }

  function SkipBlanks(s: string, nested: bool): (r: string)
    ensures |r| <= |s| && r == s[|s| - |r|..]
    ensures |r| > 0 ==> !IsBlank(r[0], nested)
    decreases |s|
  {
    if |s| > 0 && IsBlank(s[0], nested) then SkipBlanks(s[1..], nested) else s
  }

  predicate IsDigit(c: char) {
    '0' <= c <= '9'
  }

  predicate IsNameChar(c: char) {
    ('a' <= c <= 'z') || ('A' <= c <= 'Z') || IsDigit(c) || c == '_'
  }

  predicate IsQuote(c: char) {
    c == '\'' || c == '"'
  }

  /** The leading run of characters satisfying `p`. */
  function Run(s: string, p: char -> bool): (r: string)
    ensures |r| <= |s| && r == s[..|r|]
    ensures forall k :: 0 <= k < |r| ==> p(r[k])
    ensures |r| < |s| ==> !p(s[|r|])
    decreases |s|
  {
    if |s| > 0 && p(s[0]) then [s[0]] + Run(s[1..], p) else ""
  }

  // ---------------------------------------------------------------------------
  // Numbers

  function DigitValue(c: char): nat
    requires IsDigit(c)
  {
    c as int - '0' as int
  }

  /** The value of a run of decimal digits. */
  function DigitsValue(ds: string): nat
    requires forall k :: 0 <= k < |ds| ==> IsDigit(ds[k])
    decreases |ds|
  {
    if |ds| == 0 then 0 else DigitsValue(ds[..|ds| - 1]) * 10 + DigitValue(ds[|ds| - 1])
  }

  function HexValue(c: char): Option<nat> {
    if IsDigit(c) then Some(DigitValue(c))
    else if 'a' <= c <= 'f' then Some(c as int - 'a' as int + 10)
    else if 'A' <= c <= 'F' then Some(c as int - 'A' as int + 10)
    else None
  }

  /** The value of exactly `n` leading hexadecimal digits of `s`. */
  function HexPrefixValue(s: string, n: nat): (r: Option<nat>)
    decreases n
  {
    if n == 0 then Some(0)
    else if |s| < n then None
    else match (HexPrefixValue(s, n - 1), HexValue(s[n - 1]))
      case (Some(hi), Some(lo)) => Some(hi * 16 + lo)
      case _ => None
  }

  predicate IsOctal(c: char) {
    '0' <= c <= '7'
  }

  /** The value of a run of octal digits. */
  function OctalValue(ds: string): nat
    requires forall k :: 0 <= k < |ds| ==> IsOctal(ds[k])
    decreases |ds|
  {
    if |ds| == 0 then 0
    else
      assert IsOctal(ds[|ds| - 1]);
      OctalValue(ds[..|ds| - 1]) * 8 + (ds[|ds| - 1] as int - '0' as int)
  }

  lemma {:induction false} OctalBound(ds: string)
    requires forall k :: 0 <= k < |ds| ==> IsOctal(ds[k])
    ensures OctalValue(ds) < Power8(|ds|)
    decreases |ds|
  {
    if |ds| > 0 {
      OctalBound(ds[..|ds| - 1]);
    }
  }

  function Power8(n: nat): nat {
    if n == 0 then 1 else 8 * Power8(n - 1)
  }

  /** A code point a Dafny `char` can hold (Python also allows lone surrogates,
      which are a parse failure here). */
  predicate IsScalar(n: int) {
    (0 <= n < 0xD800) || (0xE000 <= n <= 0x10FFFF)
  }

  // ---------------------------------------------------------------------------
  // String literals

  datatype Lexed = Lexed(text: string, rest: string)

  /** Decodes the escape sequence after a backslash; `t` starts just after it. */
  function DecodeEscape(t: string): (r: Option<Lexed>)
    requires |t| > 0
    ensures r.Some? ==> |r.value.rest| < |t|
  {
    var c := t[0];
    if c == '\n' then Some(Lexed("", t[1..]))
    else if c == '\r' then
      // The tokenizer reads CR LF and a lone CR as a line break.
      if |t| > 1 && t[1] == '\n' then Some(Lexed("", t[2..])) else Some(Lexed("", t[1..]))
    else if c == 0 as char then None
    else if c == '\\' || c == '\'' || c == '"' then Some(Lexed([c], t[1..]))
    else if c == 'a' then Some(Lexed([7 as char], t[1..]))
    else if c == 'b' then Some(Lexed([8 as char], t[1..]))
    else if c == 'f' then Some(Lexed([12 as char], t[1..]))
    else if c == 'n' then Some(Lexed("\n", t[1..]))
    else if c == 'r' then Some(Lexed("\r", t[1..]))
    else if c == 't' then Some(Lexed("\t", t[1..]))
    else if c == 'v' then Some(Lexed([11 as char], t[1..]))
    else if IsOctal(c) then
      var ds := Run(t[..if |t| < 3 then |t| else 3], IsOctal);
      OctalBound(ds);
      assert Power8(|ds|) <= 512 by {
        assert Power8(3) == 512;
        assert |ds| <= 3;
        if |ds| < 3 { assert Power8(|ds|) <= Power8(2) == 64; }
      }
      Some(Lexed([OctalValue(ds) as char], t[|ds|..]))
    else if c == 'x' || c == 'u' || c == 'U' then
      var width := if c == 'x' then 2 else if c == 'u' then 4 else 8;
      match HexPrefixValue(t[1..], width)
      case Some(n) =>
        if IsScalar(n) then Some(Lexed([n as char], t[1 + width..])) else None
      case None => None
    else if c == 'N' then None
    else Some(Lexed("\\" + [c], t[1..]))
  }

  /** The body of a string literal delimited by `q`, up to and including the
      closing quote. A line break ends the line inside the literal, and a NUL
      character is refused in any source text. */
  function LexBody(s: string, q: char): (r: Option<Lexed>)
    ensures r.Some? ==> |r.value.rest| < |s|
    decreases |s|
  {
    if |s| == 0 then None
    else if s[0] == q then Some(Lexed("", s[1..]))
    else if s[0] == '\n' || s[0] == '\r' || s[0] == 0 as char then None
    else if s[0] == '\\' then
      if |s| == 1 then None
      else match DecodeEscape(s[1..])
        case None => None
        case Some(Lexed(d, rest)) =>
          match LexBody(rest, q)
          case None => None
          case Some(Lexed(b, rest')) => Some(Lexed(d + b, rest'))
    else match LexBody(s[1..], q)
      case None => None
      case Some(Lexed(b, rest)) => Some(Lexed([s[0]] + b, rest))
  }

  /** `s` starts with a string literal: a quote, optionally after a `u` prefix. */
  predicate StartsString(s: string) {
    (|s| > 0 && IsQuote(s[0])) || (|s| > 1 && (s[0] == 'u' || s[0] == 'U') && IsQuote(s[1]))
  }

  /** One single-quoted or double-quoted string literal; triple-quoted ones are
      not part of this model. */
  function LexString(s: string): (r: Option<Lexed>)
    requires StartsString(s)
    ensures r.Some? ==> |r.value.rest| < |s|
  {
    var open := if IsQuote(s[0]) then 0 else 1;
    var q := s[open];
    var body := s[open + 1..];
    if |body| >= 2 && body[0] == q && body[1] == q then None
    else LexBody(body, q)
  }

  // ---------------------------------------------------------------------------
  // Expressions

  datatype Parsed = Parsed(value: PyValue, rest: string)

  datatype ParsedItems = ParsedItems(items: seq<PyValue>, sawComma: bool, rest: string)

  /** Adjacent string literals, concatenated. */
  function ParseStrings(s: string, nested: bool): (r: Option<Parsed>)
    requires StartsString(s)
    ensures r.Some? ==> |r.value.rest| < |s| && r.value.value.PStr?
    ensures r.Some? ==> Representable(r.value.value)
    decreases |s|
  {
    match LexString(s)
    case None => None
    case Some(Lexed(text, rest)) =>
      var t := SkipBlanks(rest, nested);
      if StartsString(t) then
        match ParseStrings(t, nested)
        case None => None
        case Some(Parsed(more, rest')) => Some(Parsed(PStr(text + more.s), rest'))
      else Some(Parsed(PStr(text), rest))
  }

  /** A decimal integer with an optional sign; other numeric forms fail. */
  function ParseNumber(s: string, nested: bool): (r: Option<Parsed>)
    requires |s| > 0
    ensures r.Some? ==> |r.value.rest| < |s| && r.value.value.PInt?
  {
    if s[0] == '-' || s[0] == '+' then ParseUnsigned(SkipBlanks(s[1..], nested), s[0] == '-')
    else ParseUnsigned(s, false)
  }

  /** The digits of a decimal integer, negated when `neg`. */
  function ParseUnsigned(t: string, neg: bool): (r: Option<Parsed>)
    ensures r.Some? ==> |r.value.rest| < |t| && r.value.value.PInt?
  {
    var ds := Run(t, IsDigit);
    var rest := t[|ds|..];
    if |ds| == 0 then None
    else if |rest| > 0 && (IsNameChar(rest[0]) || rest[0] == '.') then None
    else if ds[0] == '0' && exists k :: 0 <= k < |ds| && ds[k] != '0' then None
    else
      var n: int := DigitsValue(ds);
      Some(Parsed(PInt(if neg then -n else n), rest))
  }

  /** A name; only the constants `None`, `True` and `False` are literals. */
  function ParseName(s: string): (r: Option<Parsed>)
    ensures r.Some? ==> |r.value.rest| < |s| && (r.value.value.PNone? || r.value.value.PBool?)
  {
    var name := Run(s, IsNameChar);
    var rest := s[|name|..];
    if name == "None" then Some(Parsed(PNone, rest))
    else if name == "True" then Some(Parsed(PBool(true), rest))
    else if name == "False" then Some(Parsed(PBool(false), rest))
    else None
  }

  /** One literal expression at the start of `s` (which starts at a token);
      `nested` tells whether it stands inside brackets. */
  function ParseAtom(s: string, nested: bool): (r: Option<Parsed>)
    ensures r.Some? ==> |r.value.rest| < |s|
    ensures r.Some? ==> Representable(r.value.value)
    decreases |s|, 0
  {
    if |s| == 0 then None
    else if s[0] == '[' then ParseList(s[1..])
    else if s[0] == '(' then ParseParen(s[1..])
    else if StartsString(s) then ParseStrings(s, nested)
    else if IsDigit(s[0]) || s[0] == '-' || s[0] == '+' then ParseNumber(s, nested)
    else ParseName(s)
  }

  /** A list display, after its opening bracket. */
  function ParseList(s: string): (r: Option<Parsed>)
    ensures r.Some? ==> |r.value.rest| < |s|
    ensures r.Some? ==> Representable(r.value.value)
    decreases |s|, 2
  {
    match ParseItems(s, ']')
    case None => None
    case Some(ParsedItems(items, _, rest)) => Some(Parsed(PList(items), rest))
  }

  /** A tuple display or a parenthesised expression, after its opening
      parenthesis: one item without a comma is the item itself. */
  function ParseParen(s: string): (r: Option<Parsed>)
    ensures r.Some? ==> |r.value.rest| < |s|
    ensures r.Some? ==> Representable(r.value.value)
    decreases |s|, 2
  {
    match ParseItems(s, ')')
    case None => None
    case Some(ParsedItems(items, sawComma, rest)) =>
      if |items| == 1 && !sawComma then Some(Parsed(items[0], rest))
      else Some(Parsed(PTuple(items), rest))
  }

  /** Comma-separated expressions up to and including `closer`, with an
      optional trailing comma; `sawComma` tells whether any comma occurred. */
  function ParseItems(s: string, closer: char): (r: Option<ParsedItems>)
    ensures r.Some? ==> |r.value.rest| < |s|
    ensures r.Some? ==> AllRepresentable(r.value.items)
    decreases |s|, 1
  {
    var t := SkipBlanks(s, true);
    if |t| > 0 && t[0] == closer then Some(ParsedItems([], false, t[1..]))
    else match ParseAtom(t, true)
      case None => None
      case Some(Parsed(x, rest)) => ItemsAfter(x, rest, closer)
  }

  /** What follows an item: the closer, or a comma and further items. */
  function ItemsAfter(x: PyValue, rest: string, closer: char): (r: Option<ParsedItems>)
    ensures r.Some? ==> |r.value.rest| < |rest|
    ensures r.Some? ==> |r.value.items| > 0 && r.value.items[0] == x && AllRepresentable(r.value.items[1..])
    decreases |rest|, 2
  {
    var u := SkipBlanks(rest, true);
    if |u| > 0 && u[0] == closer then Some(ParsedItems([x], false, u[1..]))
    else if |u| > 0 && u[0] == ',' then
      match ParseItems(u[1..], closer)
      case None => None
      case Some(ParsedItems(xs, _, rest')) =>
        assert ([x] + xs)[1..] == xs;
        Some(ParsedItems([x] + xs, true, rest'))
    else None
  }

  /** The remaining items of a top-level tuple written without parentheses. */
  function ParseTopRest(s: string): (r: Option<seq<PyValue>>)
    ensures r.Some? ==> AllRepresentable(r.value)
    decreases |s|
  {
    var t := SkipBlanks(s, false);
    if |t| == 0 then Some([])
    else match ParseAtom(t, false)
      case None => None
      case Some(Parsed(x, rest)) =>
        var u := SkipBlanks(rest, false);
        if |u| == 0 then Some([x])
        else if u[0] == ',' then
          match ParseTopRest(u[1..])
          case None => None
          case Some(xs) =>
            assert ([x] + xs)[1..] == xs;
            Some([x] + xs)
        else None
  }

  /** `ast.literal_eval(s)`: the value `s` denotes, or `None` when it is not a
      literal of the supported forms (the Python function raises then). */
  function LiteralEval(s: string): (r: Option<PyValue>)
    ensures r.Some? ==> Representable(r.value)
  {
    match ParseAtom(SkipBlanks(s, false), false)
    case None => None
    case Some(Parsed(x, rest)) => TopAfter(x, rest)
  }

  /** What follows the first top-level item `x`: the end of the input, or a
      comma and the further items of a tuple written without parentheses. */
  function TopAfter(x: PyValue, rest: string): (r: Option<PyValue>)
    ensures r.Some? && Representable(x) ==> Representable(r.value)
  {
    var u := SkipBlanks(rest, false);
    if |u| == 0 then Some(x)
    else if u[0] == ',' then
      match ParseTopRest(u[1..])
      case None => None
      case Some(xs) =>
        assert ([x] + xs)[1..] == xs;
        Some(PTuple([x] + xs))
    else None
  }

  // ---------------------------------------------------------------------------
  // Inputs the Python parser refuses

  /** A line break after a top-level item ends the expression early, so the
      input is not a literal, whether the break follows the item or a comma
      after it. */
  lemma {:induction false} TopLevelLineBreak(s: string, x: PyValue, t: string)
    requires |s| > 0 && !IsBlank(s[0], false)
    requires ParseAtom(s, false) == Some(Parsed(x, "\n" + t)) || ParseAtom(s, false) == Some(Parsed(x, ",\n" + t))
    ensures LiteralEval(s) == None
  {
    assert SkipBlanks(s, false) == s;
    TopAfterLineBreak(x, t);
  }

  lemma {:induction false} TopAfterLineBreak(x: PyValue, t: string)
    ensures TopAfter(x, "\n" + t) == None && TopAfter(x, ",\n" + t) == None
  {
    LineBreakNotBlank(t);
    TopAfterCommaLineBreak(x, t);
  }

  lemma {:induction false} TopAfterCommaLineBreak(x: PyValue, t: string)
    ensures TopAfter(x, ",\n" + t) == None
  {
    var u := ",\n" + t;
    assert SkipBlanks(u, false) == u by {
      assert !IsBlank(u[0], false);
    }
    assert u[1..] == "\n" + t;
    TopRestLineBreak(t);
  }

  /** At the top level a line break is not skipped. */
  lemma {:induction false} LineBreakNotBlank(t: string)
    ensures SkipBlanks("\n" + t, false) == "\n" + t
  {
    assert !IsBlank('\n', false);
  }

  /** After a top-level comma, a line break is not the start of an item. */
  lemma {:induction false} TopRestLineBreak(t: string)
    ensures ParseTopRest("\n" + t) == None
  {
    LineBreakNotBlank(t);
    AtomAtLineBreak(t);
  }

  lemma {:induction false} AtomAtLineBreak(t: string)
    ensures ParseAtom("\n" + t, false) == None
  {
    var s := "\n" + t;
    assert s[0] == '\n' && !StartsString(s);
    assert Run(s, IsNameChar) == "";
  }

  /** A NUL character inside a string literal makes the literal invalid. */
  lemma NulInString(t: string, q: char)
    requires IsQuote(q)
    ensures LexBody([0 as char] + t, q) == None
  {
  }

  /** A backslash before CR LF, or before a lone CR, continues the literal on
      the next line and stands for nothing. */
  lemma BackslashCarriageReturn(t: string)
    ensures DecodeEscape("\r\n" + t) == Some(Lexed("", t))
    ensures |t| == 0 || t[0] != '\n' ==> DecodeEscape("\r" + t) == Some(Lexed("", t))
  {
    assert ("\r\n" + t)[2..] == t;
    assert ("\r" + t)[1..] == t;
  }

  // ---------------------------------------------------------------------------
  // Round trip: literal_eval(repr(v)) == v

  /** Values built only from the forms this parser reads. */
  predicate Representable(v: PyValue)
    decreases v
  {
    match v
    case POther(_) => false
    case PList(items) => AllRepresentable(items)
    case PTuple(items) => AllRepresentable(items)
    case _ => true
  }

  predicate AllRepresentable(items: seq<PyValue>)
    decreases items
  {
    |items| == 0 || (Representable(items[0]) && AllRepresentable(items[1..]))
  }

  /** What may follow a literal inside a list, a tuple or at the end of input. */
  predicate Follows(rest: string) {
    |rest| == 0 || rest[0] == ',' || rest[0] == ']' || rest[0] == ')'
  }

  lemma {:induction false} HexDigitValue(d: nat)
    requires d < 16
    ensures HexValue(HexDigit(d)) == Some(d)
  {
    var digits := "0123456789abcdef";
    assert HexDigit(d) == digits[d];
    if d < 10 {
      assert digits[d] as int == '0' as int + d by {
        assert digits[..10] == "0123456789";
      }
    } else {
      assert digits[d] as int == 'a' as int + d - 10 by {
        assert digits[10..] == "abcdef";
      }
    }
  }

  lemma {:induction false} DecodeHexEscape(c: char, rest: string)
    requires NeedsHexEscape(c)
    ensures DecodeEscape("x" + [HexDigit(c as int / 16), HexDigit(c as int % 16)] + rest)
            == Some(Lexed([c], rest))
  {
    var n := c as int;
    var t := "x" + [HexDigit(n / 16), HexDigit(n % 16)] + rest;
    HexDigitValue(n / 16);
    HexDigitValue(n % 16);
    assert t[1..][0] == HexDigit(n / 16) && t[1..][1] == HexDigit(n % 16);
    assert HexPrefixValue(t[1..], 1) == Some(n / 16);
    assert HexPrefixValue(t[1..], 2) == Some(n);
    assert t[3..] == rest;
    assert (n as char) == c;
  }

  /** Reading one escaped character back gives the character. */
  lemma {:induction false} EscapeCharRoundTrip(c: char, q: char, rest: string)
    requires IsQuote(q)
    ensures LexBody(EscapeChar(c, q) + rest, q) ==
      match LexBody(rest, q)
      case None => None
      case Some(Lexed(b, r)) => Some(Lexed([c] + b, r))
  {
    var s := EscapeChar(c, q) + rest;
    if c == '\\' || c == q || c == '\t' || c == '\n' || c == '\r' {
      SimpleEscapeDecodes(c, q, rest);
      LexBackslash(s, q, [c], rest);
    } else if NeedsHexEscape(c) {
      HexEscapeDecodes(c, q, rest);
      LexBackslash(s, q, [c], rest);
    } else {
      assert s == [c] + rest;
      LexPlain(s, q);
    }
  }

  /** A backslash starts an escape sequence; the body goes on after it. */
  lemma LexBackslash(s: string, q: char, d: string, rest: string)
    requires IsQuote(q) && |s| > 1 && s[0] == '\\'
    requires DecodeEscape(s[1..]) == Some(Lexed(d, rest))
    ensures LexBody(s, q) ==
      match LexBody(rest, q)
      case None => None
      case Some(Lexed(b, r)) => Some(Lexed(d + b, r))
  {
  }

  /** Any other character than the quote, a line break, NUL or a backslash
      stands for itself. */
  lemma LexPlain(s: string, q: char)
    requires |s| > 0 && s[0] != q && s[0] != '\n' && s[0] != '\r' && s[0] != 0 as char && s[0] != '\\'
    ensures LexBody(s, q) ==
      match LexBody(s[1..], q)
      case None => None
      case Some(Lexed(b, rest)) => Some(Lexed([s[0]] + b, rest))
  {
  }

  /** A backslash, quote, tab, newline or carriage return is written as a
      two-character escape that decodes back to it. */
  lemma SimpleEscapeDecodes(c: char, q: char, rest: string)
    requires IsQuote(q)
    requires c == '\\' || c == q || c == '\t' || c == '\n' || c == '\r'
    ensures var s := EscapeChar(c, q) + rest;
      |s| > 1 && s[0] == '\\' && DecodeEscape(s[1..]) == Some(Lexed([c], rest))
  {
    var e := EscapeChar(c, q);
    var s := e + rest;
    assert |e| == 2 && e[0] == '\\';
    assert s[1..] == [e[1]] + rest;
    assert s[1..][1..] == rest;
  }

  /** Any other character that needs escaping is written as `\xHH`, which
      decodes back to it. */
  lemma HexEscapeDecodes(c: char, q: char, rest: string)
    requires IsQuote(q) && NeedsHexEscape(c)
    requires !(c == '\\' || c == q || c == '\t' || c == '\n' || c == '\r')
    ensures var s := EscapeChar(c, q) + rest;
      |s| > 1 && s[0] == '\\' && DecodeEscape(s[1..]) == Some(Lexed([c], rest))
  {
    var s := EscapeChar(c, q) + rest;
    assert s[1..] == "x" + [HexDigit(c as int / 16), HexDigit(c as int % 16)] + rest;
    DecodeHexEscape(c, rest);
  }

  lemma {:induction false} EscapeBodyRoundTrip(s: string, q: char, rest: string)
    requires IsQuote(q)
    ensures LexBody(EscapeBody(s, q) + [q] + rest, q) == Some(Lexed(s, rest))
    decreases |s|
  {
    if |s| == 0 {
      assert EscapeBody(s, q) + [q] + rest == [q] + rest;
    } else {
      var tail := EscapeBody(s[1..], q) + [q] + rest;
      assert EscapeBody(s, q) + [q] + rest == EscapeChar(s[0], q) + tail;
      EscapeBodyRoundTrip(s[1..], q, rest);
      EscapeCharRoundTrip(s[0], q, tail);
      assert [s[0]] + s[1..] == s;
    }
  }

  /** An escaped character never starts with the delimiting quote. */
  lemma EscapeCharHead(c: char, q: char)
    requires IsQuote(q)
    ensures |EscapeChar(c, q)| > 0 && EscapeChar(c, q)[0] != q
  {
  }

  lemma {:induction false} AtomIsStrings(s: string, nested: bool)
    requires StartsString(s)
    ensures ParseAtom(s, nested) == ParseStrings(s, nested)
  {
  }

  lemma {:induction false} AtomIsUnsigned(t: string, nested: bool)
    requires |t| > 0 && IsDigit(t[0])
    ensures ParseAtom(t, nested) == ParseUnsigned(t, false)
  {
    assert t[0] != '[' && t[0] != '(' && !StartsString(t);
  }

  lemma {:induction false} AtomIsNegative(t: string, nested: bool)
    requires |t| > 0 && IsDigit(t[0])
    ensures ParseAtom("-" + t, nested) == ParseUnsigned(t, true)
  {
    var s := "-" + t;
    assert s[0] == '-' && s[1..] == t;
    AtomIsNumber(s, nested);
    NumberIsNegative(s, nested);
    SkipNoBlanks(t, nested);
  }

  lemma NumberIsNegative(s: string, nested: bool)
    requires |s| > 0 && s[0] == '-'
    ensures ParseNumber(s, nested) == ParseUnsigned(SkipBlanks(s[1..], nested), true)
  {
  }

  lemma SkipNoBlanks(t: string, nested: bool)
    requires |t| > 0 && IsDigit(t[0])
    ensures SkipBlanks(t, nested) == t
  {
  }

  lemma {:induction false} AtomIsNumber(s: string, nested: bool)
    requires |s| > 0 && s[0] == '-'
    ensures ParseAtom(s, nested) == ParseNumber(s, nested)
  {
    assert s[0] != '[' && s[0] != '(' && !StartsString(s);
  }

  lemma {:induction false} AtomIsName(s: string, nested: bool)
    requires |s| > 0 && (s[0] == 'N' || s[0] == 'T' || s[0] == 'F')
    ensures ParseAtom(s, nested) == ParseName(s)
  {
    assert s[0] != '[' && s[0] != '(' && !StartsString(s) && !IsDigit(s[0]);
  }

  /** The quoted body of `repr(s)`, read back by the string lexer. */
  lemma {:induction false} LexStrRepr(s: string, rest: string)
    requires Follows(rest)
    ensures StartsString(StrRepr(s) + rest)
    ensures LexString(StrRepr(s) + rest) == Some(Lexed(s, rest))
  {
    var q := QuoteFor(s);
    var t := StrRepr(s) + rest;
    var body := EscapeBody(s, q) + [q] + rest;
    assert t == [q] + body;
    assert t[0] == q && t[1..] == body;
    EscapeBodyRoundTrip(s, q, rest);
    if |s| > 0 {
      EscapeCharHead(s[0], q);
      assert EscapeBody(s, q) == EscapeChar(s[0], q) + EscapeBody(s[1..], q);
      assert body[0] == EscapeChar(s[0], q)[0];
    } else {
      assert body == [q] + rest;
      assert |body| < 2 || body[1] != q;
    }
  }

  /** A lone string literal followed by a delimiter. */
  lemma {:induction false} SingleString(t: string, text: string, rest: string, nested: bool)
    requires StartsString(t)
    requires LexString(t) == Some(Lexed(text, rest))
    requires Follows(rest)
    ensures ParseStrings(t, nested) == Some(Parsed(PStr(text), rest))
  {
    FollowsIsPlain(rest, nested);
  }

  /** A delimiter is not a blank, so no blanks are skipped before it. */
  lemma {:induction false} FollowsIsPlain(rest: string, nested: bool)
    requires Follows(rest)
    ensures SkipBlanks(rest, nested) == rest && !StartsString(rest)
  {
    if |rest| > 0 {
      FollowsNotBlank(rest[0], nested);
    }
  }

  lemma FollowsNotBlank(c: char, nested: bool)
    requires c == ',' || c == ']' || c == ')'
    ensures !IsBlank(c, nested) && !IsQuote(c)
  {
  }

  lemma {:induction false} StrReprRoundTrip(s: string, rest: string, nested: bool)
    requires Follows(rest)
    ensures ParseAtom(StrRepr(s) + rest, nested) == Some(Parsed(PStr(s), rest))
  {
    var t := StrRepr(s) + rest;
    LexStrRepr(s, rest);
    AtomIsStrings(t, nested);
    SingleString(t, s, rest, nested);
  }

  lemma {:induction false} DigitsValueAppend(ds: string, d: char)
    requires forall k :: 0 <= k < |ds| ==> IsDigit(ds[k])
    requires IsDigit(d)
    ensures DigitsValue(ds + [d]) == DigitsValue(ds) * 10 + DigitValue(d)
  {
    assert (ds + [d])[..|ds|] == ds;
  }

  lemma {:induction false} DecimalDigitsValue(n: nat)
    ensures DigitsValue(DecimalDigits(n)) == n
    decreases n
  {
    if n >= 10 {
      DecimalDigitsValue(n / 10);
      DigitsValueAppend(DecimalDigits(n / 10), DigitChar(n % 10));
      assert DigitValue(DigitChar(n % 10)) == n % 10 by {
        DigitCharValue(n % 10);
      }
    } else {
      DigitCharValue(n);
      assert DecimalDigits(n)[..0] == "";
    }
  }

  lemma {:induction false} DigitCharValue(d: nat)
    requires d < 10
    ensures IsDigit(DigitChar(d)) && DigitValue(DigitChar(d)) == d
  {
    var digits := "0123456789";
    assert DigitChar(d) == digits[d];
    assert digits[d] as int == '0' as int + d;
  }

  lemma {:induction false} RunStops(w: string, rest: string, p: char -> bool)
    requires forall k :: 0 <= k < |w| ==> p(w[k])
    requires |rest| == 0 || !p(rest[0])
    ensures Run(w + rest, p) == w
    decreases |w|
  {
    if |w| > 0 {
      assert (w + rest)[1..] == w[1..] + rest;
      RunStops(w[1..], rest, p);
    } else {
      assert w + rest == rest;
    }
  }

  /** An optional minus sign, canonical decimal digits and a delimiter. */
  lemma {:induction false} ParseDigits(ds: string, neg: bool, rest: string)
    requires |ds| > 0 && forall k :: 0 <= k < |ds| ==> IsDigit(ds[k])
    requires |ds| > 1 ==> ds[0] != '0'
    requires Follows(rest)
    ensures ParseUnsigned(ds + rest, neg) == Some(Parsed(PInt(if neg then -(DigitsValue(ds) as int) else DigitsValue(ds)), rest))
  {
    var t := ds + rest;
    RunStops(ds, rest, IsDigit);
    assert t[|ds|..] == rest;
  }

  /** `str(n)` has no superfluous leading zero. */
  lemma {:induction false} DecimalDigitsCanonical(n: nat)
    ensures |DecimalDigits(n)| > 1 ==> DecimalDigits(n)[0] != '0'
  {
  }

  lemma {:induction false} NatRoundTrip(n: nat, rest: string, nested: bool)
    requires Follows(rest)
    ensures ParseAtom(DecimalDigits(n) + rest, nested) == Some(Parsed(PInt(n), rest))
  {
    var ds := DecimalDigits(n);
    DecimalDigitsValue(n);
    DecimalDigitsCanonical(n);
    ParseDigits(ds, false, rest);
    assert (ds + rest)[0] == ds[0];
    AtomIsUnsigned(ds + rest, nested);
  }

  lemma {:induction false} NegDigitsRoundTrip(ds: string, rest: string, nested: bool)
    requires |ds| > 0 && forall k :: 0 <= k < |ds| ==> IsDigit(ds[k])
    requires |ds| > 1 ==> ds[0] != '0'
    requires Follows(rest)
    ensures ParseAtom("-" + (ds + rest), nested) == Some(Parsed(PInt(-(DigitsValue(ds) as int)), rest))
  {
    ParseDigits(ds, true, rest);
    assert (ds + rest)[0] == ds[0];
    AtomIsNegative(ds + rest, nested);
  }

  lemma {:induction false} NegRoundTrip(n: nat, rest: string, nested: bool)
    requires Follows(rest)
    ensures ParseAtom("-" + (DecimalDigits(n) + rest), nested) == Some(Parsed(PInt(-(n as int)), rest))
  {
    DecimalDigitsCanonical(n);
    NegDigitsRoundTrip(DecimalDigits(n), rest, nested);
    DecimalDigitsValue(n);
  }

  lemma {:induction false} IntRoundTrip(i: int, rest: string, nested: bool)
    requires Follows(rest)
    ensures ParseAtom(IntText(i) + rest, nested) == Some(Parsed(PInt(i), rest))
  {
    if i < 0 {
      NegIntRoundTrip(i, rest, nested);
    } else {
      NatRoundTrip(i, rest, nested);
    }
  }

  lemma {:induction false} NegIntRoundTrip(i: int, rest: string, nested: bool)
    requires i < 0 && Follows(rest)
    ensures ParseAtom(IntText(i) + rest, nested) == Some(Parsed(PInt(i), rest))
  {
    var n: nat := -i;
    var t := DecimalDigits(n) + rest;
    NegText(i, n, rest);
    NegRoundTrip(n, rest, nested);
    assert ParseAtom("-" + t, nested) == Some(Parsed(PInt(i), rest));
  }

  /** `str` of a negative integer is a minus sign and the digits of its magnitude. */
  lemma NegText(i: int, n: nat, rest: string)
    requires i < 0 && n == -i
    ensures IntText(i) + rest == "-" + (DecimalDigits(n) + rest)
  {
  }

  lemma {:induction false} NameParses(name: string, v: PyValue, rest: string)
    requires (name, v) == ("None", PNone) || (name, v) == ("True", PBool(true)) || (name, v) == ("False", PBool(false))
    requires Follows(rest)
    ensures ParseName(name + rest) == Some(Parsed(v, rest))
  {
    RunStops(name, rest, IsNameChar);
    assert (name + rest)[|name|..] == rest;
  }

  lemma {:induction false} NameRoundTrip(name: string, v: PyValue, rest: string, nested: bool)
    requires (name, v) == ("None", PNone) || (name, v) == ("True", PBool(true)) || (name, v) == ("False", PBool(false))
    requires Follows(rest)
    ensures ParseAtom(name + rest, nested) == Some(Parsed(v, rest))
  {
    NameParses(name, v, rest);
    assert (name + rest)[0] == name[0];
    AtomIsName(name + rest, nested);
  }

  /** The first character of a `repr` is neither blank nor a closing bracket
      nor a comma. */
  lemma {:induction false} ReprHead(v: PyValue)
    requires Representable(v)
    ensures |Repr(v)| > 0
    ensures !IsBlank(Repr(v)[0], true) && !IsBlank(Repr(v)[0], false) && Repr(v)[0] != ']' && Repr(v)[0] != ')' && Repr(v)[0] != ','
  {
    match v
    case PInt(i) =>
      if i >= 0 {
        assert IsDigit(DecimalDigits(i)[0]);
      }
    case _ =>
  }

  lemma {:induction false} ReprsHead(items: seq<PyValue>)
    requires |items| > 0
    ensures Reprs(items)[0] == Repr(items[0]) && Reprs(items)[1..] == Reprs(items[1..])
  {
  }

  /** The comma-separated `repr`s of a non-empty sequence of items. */
  lemma {:induction false} JoinReprs(items: seq<PyValue>)
    requires |items| > 0
    ensures |items| == 1 ==> Join(Reprs(items), ", ") == Repr(items[0])
    ensures |items| > 1 ==> Join(Reprs(items), ", ") == Repr(items[0]) + ", " + Join(Reprs(items[1..]), ", ")
  {
    ReprsHead(items);
  }

  lemma {:induction false} AtomIsList(body: string, items: seq<PyValue>, sawComma: bool, rest: string, nested: bool)
    requires ParseItems(body, ']') == Some(ParsedItems(items, sawComma, rest))
    ensures ParseAtom("[" + body, nested) == Some(Parsed(PList(items), rest))
  {
    assert ("[" + body)[1..] == body;
  }

  lemma {:induction false} AtomIsTuple(body: string, items: seq<PyValue>, sawComma: bool, rest: string, nested: bool)
    requires ParseItems(body, ')') == Some(ParsedItems(items, sawComma, rest))
    ensures ParseAtom("(" + body, nested) ==
      Some(Parsed(if |items| == 1 && !sawComma then items[0] else PTuple(items), rest))
  {
    assert ("(" + body)[1..] == body;
  }

  lemma {:induction false} ItemsClose(s: string, closer: char)
    requires closer == ']' || closer == ')'
    requires |s| > 0 && s[0] == closer
    ensures ParseItems(s, closer) == Some(ParsedItems([], false, s[1..]))
  {
    assert SkipBlanks(s, true) == s;
  }

  /** A run of blanks before the items does not matter. */
  lemma {:induction false} ItemsSkipSpace(t: string, closer: char)
    requires |t| > 0 && !IsBlank(t[0], true)
    ensures ParseItems(" " + t, closer) == ParseItems(t, closer)
  {
    assert (" " + t)[1..] == t;
    assert SkipBlanks(" " + t, true) == t;
  }

  /** The items start with an item, not with the closer. */
  lemma {:induction false} ItemsFirst(s: string, closer: char, x: PyValue, rest: string)
    requires |s| > 0 && !IsBlank(s[0], true) && s[0] != closer
    requires ParseAtom(s, true) == Some(Parsed(x, rest))
    ensures ParseItems(s, closer) == ItemsAfter(x, rest, closer)
  {
    assert SkipBlanks(s, true) == s;
  }

  lemma {:induction false} AfterClose(x: PyValue, closer: char, rest: string)
    requires closer == ']' || closer == ')'
    ensures ItemsAfter(x, [closer] + rest, closer) == Some(ParsedItems([x], false, rest))
  {
    var u := [closer] + rest;
    assert SkipBlanks(u, true) == u;
    assert u[1..] == rest;
  }

  lemma {:induction false} AfterComma(x: PyValue, closer: char, tail: string, xs: seq<PyValue>, saw: bool, rest: string)
    requires closer != ','
    requires ParseItems(tail, closer) == Some(ParsedItems(xs, saw, rest))
    ensures ItemsAfter(x, "," + tail, closer) == Some(ParsedItems([x] + xs, true, rest))
  {
    var u := "," + tail;
    assert SkipBlanks(u, true) == u;
    assert u[1..] == tail;
  }

  /** `literal_eval(repr(v)) == v`, for one literal at the start of the input. */
  lemma {:induction false} ReprRoundTrip(v: PyValue, rest: string, nested: bool)
    requires Representable(v)
    requires Follows(rest)
    ensures ParseAtom(Repr(v) + rest, nested) == Some(Parsed(v, rest))
    decreases v, 0
  {
    match v
    case PNone => NameRoundTrip("None", v, rest, nested);
    case PBool(b) =>
      if b { NameRoundTrip("True", v, rest, nested); } else { NameRoundTrip("False", v, rest, nested); }
    case PInt(i) => IntRoundTrip(i, rest, nested);
    case PStr(s) => StrReprRoundTrip(s, rest, nested);
    case PList(items) => ListRoundTrip(items, rest, nested);
    case PTuple(items) => TupleRoundTrip(items, rest, nested);
  }

  lemma {:induction false} ListRoundTrip(items: seq<PyValue>, rest: string, nested: bool)
    requires AllRepresentable(items)
    requires Follows(rest)
    ensures ParseAtom(Repr(PList(items)) + rest, nested) == Some(Parsed(PList(items), rest))
    decreases items, 1
  {
    var body := ItemsText(items, ']', rest);
    ListText(items, rest);
    ItemsRoundTrip(items, ']', rest);
    AtomIsList(body, items, |items| > 1, rest, nested);
  }

  lemma {:induction false} TupleRoundTrip(items: seq<PyValue>, rest: string, nested: bool)
    requires AllRepresentable(items)
    requires Follows(rest)
    ensures ParseAtom(Repr(PTuple(items)) + rest, nested) == Some(Parsed(PTuple(items), rest))
    decreases items, 1
  {
    if |items| == 1 {
      var x := items[0];
      var body := Repr(x) + "," + [')'] + rest;
      OneTupleText(items, rest);
      OneTupleRoundTrip(x, ')', rest);
      AtomIsTuple(body, [x], true, rest, nested);
    } else {
      var body := ItemsText(items, ')', rest);
      TupleText(items, rest);
      ItemsRoundTrip(items, ')', rest);
      AtomIsTuple(body, items, |items| > 1, rest, nested);
    }
  }

  /** The text of a list display followed by `rest`. */
  lemma ListText(items: seq<PyValue>, rest: string)
    ensures Repr(PList(items)) + rest == "[" + ItemsText(items, ']', rest)
  {
  }

  /** The text of a tuple display of other than one item, followed by `rest`. */
  lemma TupleText(items: seq<PyValue>, rest: string)
    requires |items| != 1
    ensures Repr(PTuple(items)) + rest == "(" + ItemsText(items, ')', rest)
  {
  }

  /** The text of a one-item tuple display, followed by `rest`. */
  lemma OneTupleText(items: seq<PyValue>, rest: string)
    requires |items| == 1
    ensures items == [items[0]]
    ensures Repr(PTuple(items)) + rest == "(" + (Repr(items[0]) + "," + [')'] + rest)
  {
  }

  /** A single item with a trailing comma, as in `(x,)`. */
  lemma {:induction false} OneTupleRoundTrip(x: PyValue, closer: char, rest: string)
    requires Representable(x)
    requires closer == ']' || closer == ')'
    requires Follows(rest)
    ensures ParseItems(Repr(x) + "," + [closer] + rest, closer) == Some(ParsedItems([x], true, rest))
    decreases x, 1
  {
    var tail := [closer] + rest;
    var s := Repr(x) + ("," + tail);
    assert Repr(x) + "," + [closer] + rest == s;
    ReprRoundTrip(x, "," + tail, true);
    OneItemThenClose(s, x, closer, tail, rest);
  }

  /** An item, a comma and the closer: one item, with a comma seen. */
  lemma {:induction false} OneItemThenClose(s: string, x: PyValue, closer: char, tail: string, rest: string)
    requires Representable(x)
    requires closer == ']' || closer == ')'
    requires s == Repr(x) + ("," + tail) && tail == [closer] + rest
    requires ParseAtom(s, true) == Some(Parsed(x, "," + tail))
    ensures ParseItems(s, closer) == Some(ParsedItems([x], true, rest))
  {
    ReprHead(x);
    assert s[0] == Repr(x)[0];
    ItemsFirst(s, closer, x, "," + tail);
    ItemsClose(tail, closer);
    assert tail[1..] == rest;
    AfterComma(x, closer, tail, [], false, rest);
    assert [x] + [] == [x];
  }

  /** One item, a comma and a blank, then further items. */
  lemma {:induction false} ItemsCons(s: string, x: PyValue, t: string, closer: char, ys: seq<PyValue>, saw: bool, rest: string)
    requires Representable(x)
    requires closer == ']' || closer == ')'
    requires |t| > 0 && !IsBlank(t[0], true)
    requires s == Repr(x) + ("," + (" " + t))
    requires ParseAtom(s, true) == Some(Parsed(x, "," + (" " + t)))
    requires ParseItems(t, closer) == Some(ParsedItems(ys, saw, rest))
    ensures ParseItems(s, closer) == Some(ParsedItems([x] + ys, true, rest))
  {
    ReprHead(x);
    assert s[0] == Repr(x)[0];
    ItemsFirst(s, closer, x, "," + (" " + t));
    ItemsSkipSpace(t, closer);
    AfterComma(x, closer, " " + t, ys, saw, rest);
  }

  /** The text of `items` as `repr` writes them inside a list or a tuple,
      then the closer and whatever follows. */
  function ItemsText(items: seq<PyValue>, closer: char, rest: string): string {
    Join(Reprs(items), ", ") + [closer] + rest
  }

  /** Joined `repr`s start like the first of them. */
  lemma {:induction false} ItemsTextHead(items: seq<PyValue>, closer: char, rest: string)
    requires |items| > 0 && Representable(items[0])
    ensures |ItemsText(items, closer, rest)| > 0 && !IsBlank(ItemsText(items, closer, rest)[0], true)
  {
    JoinReprs(items);
    ReprHead(items[0]);
    assert ItemsText(items, closer, rest)[0] == Repr(items[0])[0];
  }

  lemma {:induction false} ItemsTextOne(x: PyValue, closer: char, rest: string)
    requires Representable(x)
    requires closer == ']' || closer == ')'
    requires ParseAtom(Repr(x) + ([closer] + rest), true) == Some(Parsed(x, [closer] + rest))
    ensures ParseItems(ItemsText([x], closer, rest), closer) == Some(ParsedItems([x], false, rest))
  {
    var s := Repr(x) + ([closer] + rest);
    JoinReprs([x]);
    assert ItemsText([x], closer, rest) == s;
    ReprHead(x);
    assert s[0] == Repr(x)[0];
    ItemsFirst(s, closer, x, [closer] + rest);
    AfterClose(x, closer, rest);
  }

  lemma {:induction false} ItemsTextSplit(items: seq<PyValue>, closer: char, rest: string)
    requires |items| > 1
    ensures ItemsText(items, closer, rest) == Repr(items[0]) + ("," + (" " + ItemsText(items[1..], closer, rest)))
  {
    JoinReprs(items);
    var a := Repr(items[0]);
    var c := Join(Reprs(items[1..]), ", ");
    assert a + ", " + c + [closer] + rest == a + ("," + (" " + (c + [closer] + rest)));
  }

  lemma {:induction false} ItemsTextMany(items: seq<PyValue>, closer: char, rest: string)
    requires |items| > 1 && Representable(items[0]) && Representable(items[1])
    requires closer == ']' || closer == ')'
    requires ParseAtom(ItemsText(items, closer, rest), true)
             == Some(Parsed(items[0], "," + (" " + ItemsText(items[1..], closer, rest))))
    requires ParseItems(ItemsText(items[1..], closer, rest), closer)
             == Some(ParsedItems(items[1..], |items| > 2, rest))
    ensures ParseItems(ItemsText(items, closer, rest), closer) == Some(ParsedItems(items, true, rest))
  {
    var s := ItemsText(items, closer, rest);
    var t := ItemsText(items[1..], closer, rest);
    var x, ys := items[0], items[1..];
    assert |t| > 0 && !IsBlank(t[0], true) by {
      ItemsTextHead(ys, closer, rest);
    }
    assert s == Repr(x) + ("," + (" " + t)) by {
      ItemsTextSplit(items, closer, rest);
    }
    ItemsCons(s, x, t, closer, ys, |items| > 2, rest);
    assert [x] + ys == items;
  }

  /** The items of a `repr`'d list or tuple are read back, up to the closer. */
  lemma {:induction false} ItemsRoundTrip(items: seq<PyValue>, closer: char, rest: string)
    requires AllRepresentable(items)
    requires closer == ']' || closer == ')'
    requires Follows(rest)
    ensures ParseItems(ItemsText(items, closer, rest), closer) == Some(ParsedItems(items, |items| > 1, rest))
    decreases items, 0
  {
    if |items| == 0 {
      var s := [closer] + rest;
      assert ItemsText(items, closer, rest) == s;
      ItemsClose(s, closer);
      assert s[1..] == rest;
    } else if |items| == 1 {
      ReprRoundTrip(items[0], [closer] + rest, true);
      ItemsTextOne(items[0], closer, rest);
      assert [items[0]] == items;
    } else {
      assert AllRepresentable(items[1..]);
      ReprRoundTrip(items[0], "," + (" " + ItemsText(items[1..], closer, rest)), true);
      ItemsTextSplit(items, closer, rest);
      ItemsRoundTrip(items[1..], closer, rest);
      ItemsTextMany(items, closer, rest);
    }
  }

  /** `literal_eval(repr(v)) == v` for the whole input. */
  lemma {:induction false} LiteralEvalRepr(v: PyValue)
    requires Representable(v)
    ensures LiteralEval(Repr(v)) == Some(v)
  {
    ReprHead(v);
    assert SkipBlanks(Repr(v), false) == Repr(v);
    ReprRoundTrip(v, "", false);
    assert Repr(v) + "" == Repr(v);
  }
}
