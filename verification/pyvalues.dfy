/** The Python values the text helpers receive or that `ast.literal_eval`
    can produce, with Python's `str()` and `repr()` of them. */
module PyValues {
  import opened Seqs

  datatype PyValue =
    | PNone
    | PBool(b: bool)
    | PInt(i: int)
    | PStr(s: string)
    | PList(items: seq<PyValue>)
    | PTuple(items: seq<PyValue>)
      /** Any other value (a float, a timestamp, ...), known by its `str()` text. */
    | POther(text: string)

  function DigitChar(d: nat): char
    requires d < 10
  {
    "0123456789"[d]
  }

  /** `str(n)` for a non-negative integer: decimal digits, no leading zero. */
  function DecimalDigits(n: nat): (r: string)
    ensures |r| > 0
    ensures forall k :: 0 <= k < |r| ==> '0' <= r[k] <= '9'
    ensures r[0] == '0' ==> n == 0
    decreases n
  {
    if n < 10 then [DigitChar(n)] else DecimalDigits(n / 10) + [DigitChar(n % 10)]
  }

  /** `str(i)` for an integer. */
  function IntText(i: int): string {
    if i < 0 then "-" + DecimalDigits(-i) else DecimalDigits(i)
  }

  function HexDigit(d: nat): char
    requires d < 16
  {
    "0123456789abcdef"[d]
  }

  /** Characters `repr` writes as a `\xhh` escape: the C0 controls other than
      tab, newline and carriage return, DEL, the C1 controls, the no-break
      space and the soft hyphen. */
  predicate NeedsHexEscape(c: char) {
    var n := c as int;
    (n < 0x20 && c != '\t' && c != '\n' && c != '\r') || (0x7F <= n <= 0xA0) || n == 0xAD
  }

  /** One character of a `repr`'d string whose delimiting quote is `q`. */
  function EscapeChar(c: char, q: char): string {
    if c == '\\' then "\\\\"
    else if c == q then "\\" + [q]
    else if c == '\t' then "\\t"
    else if c == '\n' then "\\n"
    else if c == '\r' then "\\r"
    else if NeedsHexEscape(c) then "\\x" + [HexDigit(c as int / 16), HexDigit(c as int % 16)]
    else [c]
  }

  function EscapeBody(s: string, q: char): string
    decreases |s|
  {
    if |s| == 0 then "" else EscapeChar(s[0], q) + EscapeBody(s[1..], q)
  }

  /** The quote `repr` delimits `s` with: double quotes only when `s` holds a
      single quote and no double quote. */
  function QuoteFor(s: string): char {
    if '\'' in s && '"' !in s then '"' else '\''
  }

  /** `repr(s)` for a string. */
  function StrRepr(s: string): string {
    var q := QuoteFor(s);
    [q] + EscapeBody(s, q) + [q]
  }

  /** `repr(v)`: a string is quoted, a list bracketed and a tuple
      parenthesised, with a trailing comma when it has one item. */
  function Repr(v: PyValue): (r: string)
    ensures v.PNone? ==> r == "None"
    ensures v.PBool? ==> r == (if v.b then "True" else "False")
    ensures v.PInt? ==> r == IntText(v.i)
    ensures v.PStr? ==> |r| >= 2 && r[0] == r[|r| - 1] == QuoteFor(v.s)
    ensures v.PList? ==> |r| >= 2 && r[0] == '[' && r[|r| - 1] == ']'
    ensures v.PTuple? ==> |r| >= 2 && r[0] == '(' && r[|r| - 1] == ')'
    ensures v.PTuple? && |v.items| == 1 ==> |r| >= 3 && r[|r| - 2] == ','
    decreases v
  {
    match v
    case PNone => "None"
    case PBool(b) => if b then "True" else "False"
    case PInt(i) => IntText(i)
    case PStr(s) => StrRepr(s)
    case PList(items) => "[" + Join(Reprs(items), ", ") + "]"
    case PTuple(items) =>
      if |items| == 1 then "(" + Repr(items[0]) + ",)"
      else "(" + Join(Reprs(items), ", ") + ")"
    case POther(text) => text
  }

  /** The `repr` of each item. */
  function Reprs(items: seq<PyValue>): (r: seq<string>)
    ensures |r| == |items|
    decreases items
  {
    if |items| == 0 then [] else [Repr(items[0])] + Reprs(items[1..])
  }

  /** `str(v)`: a string is itself, any other value is its `repr`. */
  function Str(v: PyValue): (r: string)
    ensures v.PStr? ==> r == v.s
    ensures !v.PStr? ==> r == Repr(v)
  {
    match v
    case PStr(s) => s
    case _ => Repr(v)
  }
}
