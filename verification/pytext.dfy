/** The text helpers every preprocessing step runs cells through:
    `normalize_text`, `_try_parse_list_string`, `join_list` and
    `scrub_nan_tokens`, over Python values. */
module PyText {
  import opened Wrappers
  import opened Seqs
  import opened Text
  import opened PyValues
  import opened Literal

  // ---------------------------------------------------------------------------
  // normalize_text

  /** `normalize_text(v)`: `None` becomes the empty string; anything else is
      converted with `str` and normalised. */
  function NormalizeText(v: PyValue): (r: string)
    ensures IsNormalized(r)
    ensures v.PNone? ==> r == ""
  {
    if v.PNone? then "" else var t := Str(v); Normalize(t)
  }

  /** Normalising a string splits it into its whitespace-separated fields
      (after control characters became spaces) and joins them with one space. */
  lemma NormalizeTextIsUnwords(s: string)
    ensures NormalizeText(PStr(s)) == Unwords(Fields(ReplaceControls(s)))
  {
    NormalizeIsUnwords(s);
  }

  /** The result of `normalize_text`, normalised again, is unchanged. */
  lemma NormalizeTextIdempotent(v: PyValue)
    ensures NormalizeText(PStr(NormalizeText(v))) == NormalizeText(v)
  {
    NormalizeKeepsNormalized(NormalizeText(v));
  }

  // ---------------------------------------------------------------------------
  // _try_parse_list_string

  /** The stripped text is bracketed as a list display or a parenthesised
      form. */
  predicate LooksLikeList(v: string) {
    |v| > 0 && ((v[0] == '[' && v[|v| - 1] == ']') || (v[0] == '(' && v[|v| - 1] == ')'))
  }

  /** `_try_parse_list_string(value)`: when the stripped text is bracketed, the
      value `ast.literal_eval` gives for it; otherwise, or when evaluation
      fails, the original (unstripped) string. */
  function TryParseListString(value: string): (r: PyValue)
    ensures !LooksLikeList(Strip(value)) ==> r == PStr(value)
    ensures LooksLikeList(Strip(value)) && LiteralEval(Strip(value)).Some? ==> r == LiteralEval(Strip(value)).value
    ensures LooksLikeList(Strip(value)) && LiteralEval(Strip(value)).None? ==> r == PStr(value)
  {
    var v := Strip(value);
    if LooksLikeList(v) then
      match LiteralEval(v)
      case Some(x) => x
      case None => PStr(value)
    else PStr(value)
  }

  /** The text of a list written by `repr` is parsed back into the list. */
  lemma {:induction false} TryParseListRepr(items: seq<PyValue>)
    requires AllRepresentable(items)
    ensures TryParseListString(Repr(PList(items))) == PList(items)
  {
    var s := Repr(PList(items));
    assert s == "[" + Join(Reprs(items), ", ") + "]";
    assert s[0] == '[' && s[|s| - 1] == ']';
    StripKeepsTrimmed(s);
    LiteralEvalRepr(PList(items));
  }

  // ---------------------------------------------------------------------------
  // join_list

  /** The items that are not `None`, in order. */
  function NonNone(items: seq<PyValue>): (r: seq<PyValue>)
    ensures |r| <= |items|
    ensures forall i :: 0 <= i < |r| ==> !r[i].PNone?
    ensures forall i :: 0 <= i < |items| && !items[i].PNone? ==> items[i] in r
    ensures IsSubseq(r, items)
    ensures forall x :: multiset(r)[x] == if x.PNone? then 0 else multiset(items)[x]
  {
    FilterIsSubseq((x: PyValue) => !x.PNone?, items);
    Filter((x: PyValue) => !x.PNone?, items)
  }

  /** `normalize_text` applied to each item. */
  function NormalizeEach(items: seq<PyValue>): (r: seq<string>)
    ensures |r| == |items|
    ensures forall i :: 0 <= i < |r| ==> IsNormalized(r[i])
    ensures forall i :: 0 <= i < |r| ==> r[i] == NormalizeText(items[i])
  {
    seq(|items|, i requires 0 <= i < |items| => NormalizeText(items[i]))
  }

  /** `s in ("[]", "")`. */
  predicate IsEmptyDisplay(s: string) {
    |s| == 0 || (|s| == 2 && s[0] == '[' && s[1] == ']')
  }

  /** The value `join_list` goes on with: a string is offered to
      `_try_parse_list_string`, any other value is kept. */
  function ParseCell(value: PyValue): (w: PyValue)
    ensures !value.PStr? ==> w == value
    ensures value.PStr? && !LooksLikeList(Strip(value.s)) ==> w == value
    ensures value.PStr? && LooksLikeList(Strip(value.s)) && LiteralEval(Strip(value.s)).Some? ==>
              w == LiteralEval(Strip(value.s)).value
    ensures value.PStr? && LooksLikeList(Strip(value.s)) && LiteralEval(Strip(value.s)).None? ==> w == value
  {
    if value.PStr? then TryParseListString(value.s) else value
  }

  /** The rest of `join_list` on the (possibly parsed) value `w`: a list gives
      its non-`None` items, each normalised, joined with `sep`; anything else
      goes through `JoinScalar`. */
  function JoinParsed(w: PyValue, sep: string): (r: string)
    ensures !w.PList? ==> IsNormalized(r) && (IsEmptyDisplay(r) ==> r == "")
    ensures !w.PList? && IsEmptyDisplay(NormalizeText(w)) ==> r == ""
    ensures !w.PList? && !IsEmptyDisplay(NormalizeText(w)) ==> r == NormalizeText(w)
  {
    if w.PList? then Join(NormalizeEach(NonNone(w.items)), sep) else JoinScalar(w)
  }

  /** A value that is not a list is normalised, and `[]` or nothing becomes
      the empty string. */
  function JoinScalar(w: PyValue): (r: string)
    ensures IsNormalized(r)
    ensures IsEmptyDisplay(r) ==> r == ""
    ensures IsEmptyDisplay(NormalizeText(w)) ==> r == ""
    ensures !IsEmptyDisplay(NormalizeText(w)) ==> r == NormalizeText(w)
  {
    DropEmptyDisplay(NormalizeText(w))
  }

  /** `s` itself, or the empty string when `s` is an empty display. */
  function DropEmptyDisplay(s: string): (r: string)
    requires IsNormalized(s)
    ensures IsNormalized(r)
    ensures IsEmptyDisplay(s) ==> r == ""
    ensures !IsEmptyDisplay(s) ==> r == s
  {
    if IsEmptyDisplay(s) then "" else s
  }

  /** `join_list(value, sep)`: `None` gives the empty string; otherwise the
      value is parsed when it is a string and then joined. */
  function JoinList(value: PyValue, sep: string): (r: string)
    ensures value.PNone? ==> r == ""
    ensures !ParseCell(value).PList? ==> IsNormalized(r) && (IsEmptyDisplay(r) ==> r == "")
    ensures !value.PNone? && ParseCell(value).PList? ==>
              r == Join(NormalizeEach(NonNone(ParseCell(value).items)), sep)
    ensures !value.PNone? && !ParseCell(value).PList? && IsEmptyDisplay(NormalizeText(ParseCell(value))) ==> r == ""
    ensures !value.PNone? && !ParseCell(value).PList? && !IsEmptyDisplay(NormalizeText(ParseCell(value))) ==>
              r == NormalizeText(ParseCell(value))
  {
    if value.PNone? then "" else JoinParsed(ParseCell(value), sep)
  }

  /** A list value: its non-`None` items are normalised and joined, and the
      result is as long as the parts and separators together. */
  lemma {:induction false} JoinListOfList(items: seq<PyValue>, sep: string)
    ensures JoinList(PList(items), sep) == Join(NormalizeEach(NonNone(items)), sep)
    ensures |NonNone(items)| == 0 ==> JoinList(PList(items), sep) == ""
    ensures |NonNone(items)| > 0 ==>
              |JoinList(PList(items), sep)| == TotalLength(NormalizeEach(NonNone(items))) + (|NonNone(items)| - 1) * |sep|
  {
    JoinListIsJoin(items, sep);
    var parts := NormalizeEach(NonNone(items));
    JoinedLength(parts, sep, JoinList(PList(items), sep));
  }

  lemma JoinListIsJoin(items: seq<PyValue>, sep: string)
    ensures JoinList(PList(items), sep) == Join(NormalizeEach(NonNone(items)), sep)
  {
    assert ParseCell(PList(items)) == PList(items);
  }

  /** The length of a join, stated for a result named by the caller. */
  lemma JoinedLength(parts: seq<string>, sep: string, j: string)
    requires j == Join(parts, sep)
    ensures |parts| == 0 ==> j == ""
    ensures |parts| > 0 ==> |j| == TotalLength(parts) + (|parts| - 1) * |sep|
  {
    if |parts| > 0 {
      JoinLength(parts, sep);
    }
  }

  /** A value that is not a list (after parsing a string) is normalised, and
      an empty result or `[]` is dropped. */
  lemma {:induction false} JoinListOfScalar(value: PyValue, sep: string)
    requires !value.PNone? && !value.PList?
    requires value.PStr? ==> !LooksLikeList(Strip(value.s))
    ensures IsNormalized(JoinList(value, sep))
    ensures JoinList(value, sep) == if IsEmptyDisplay(NormalizeText(value)) then "" else NormalizeText(value)
  {
    assert ParseCell(value) == value;
  }

  /** The text of a list, as a CSV cell stores it, is joined item by item:
      `join_list("['A', 'B']") == "A, B"`. */
  lemma {:induction false} JoinListOfListText(items: seq<PyValue>, sep: string)
    requires AllRepresentable(items)
    ensures JoinList(PStr(Repr(PList(items))), sep) == Join(NormalizeEach(NonNone(items)), sep)
  {
    TryParseListRepr(items);
  }

  /** The text of a tuple, as `repr` writes it, is parsed into the tuple,
      which is not a list, so it is rendered whole by `normalize_text`:
      `join_list("('a', 'b')") == "('a', 'b')"`. */
  lemma {:induction false} JoinListOfTupleText(items: seq<PyValue>, sep: string)
    requires AllRepresentable(items)
    ensures JoinList(PStr(Repr(PTuple(items))), sep) == DropEmptyDisplay(NormalizeText(PTuple(items)))
  {
    TryParseTupleRepr(items);
    JoinListOfParsedScalar(Repr(PTuple(items)), PTuple(items), sep);
  }

  /** A string the parse turns into a value other than a list is joined as
      that value's `normalize_text`, with `[]` and nothing dropped. */
  lemma JoinListOfParsedScalar(s: string, w: PyValue, sep: string)
    requires TryParseListString(s) == w && !w.PList?
    ensures JoinList(PStr(s), sep) == DropEmptyDisplay(NormalizeText(w))
  {
  }

  /** The text of a tuple written by `repr` is parsed back into the tuple. */
  lemma {:induction false} TryParseTupleRepr(items: seq<PyValue>)
    requires AllRepresentable(items)
    ensures TryParseListString(Repr(PTuple(items))) == PTuple(items)
  {
    var s := Repr(PTuple(items));
    assert s[0] == '(' && s[|s| - 1] == ')';
    StripKeepsTrimmed(s);
    LiteralEvalRepr(PTuple(items));
  }

  /** `join_list` on text that is already a normalised, non-bracketed value
      returns it unchanged, unless it is empty. */
  lemma {:induction false} JoinListKeepsPlainText(s: string, sep: string)
    requires IsNormalized(s) && !LooksLikeList(s)
    ensures JoinList(PStr(s), sep) == s
  {
    PlainTextNotParsed(s);
    NormalizeTextKeepsNormalized(s);
    JoinListOfUnparsed(s, sep);
    assert IsEmptyDisplay(s) ==> s == "" || LooksLikeList(s);
  }

  /** A string the parse leaves alone is normalised, and `[]` or nothing
      becomes the empty string. */
  lemma JoinListOfUnparsed(s: string, sep: string)
    requires TryParseListString(s) == PStr(s)
    ensures JoinList(PStr(s), sep) == if IsEmptyDisplay(NormalizeText(PStr(s))) then "" else NormalizeText(PStr(s))
  {
  }

  /** Stripped text that is not bracketed is not parsed. */
  lemma PlainTextNotParsed(s: string)
    requires Trimmed(s) && !LooksLikeList(s)
    ensures TryParseListString(s) == PStr(s)
  {
    StripKeepsTrimmed(s);
  }

  /** Normalised text is its own `normalize_text`. */
  lemma NormalizeTextKeepsNormalized(s: string)
    requires IsNormalized(s)
    ensures NormalizeText(PStr(s)) == s
  {
    NormalizeKeepsNormalized(s);
  }

  // ---------------------------------------------------------------------------
  // scrub_nan_tokens

  /** `scrub_nan_tokens(v)`: normalise, delete every whole-word `nan` in any
      letter case, then squeeze the whitespace again. Only the tokens'
      characters are deleted: every other character of the normalised text is
      kept, in order, before the squeeze. */
  function ScrubNanTokens(v: PyValue): (r: string)
    ensures IsNormalized(r)
    ensures HasNoNanToken(r)
    ensures |r| <= |NormalizeText(v)|
  {
    var s := NormalizeText(v);
    var t := RemoveNan(s);
    RemoveNanLeavesClean(s, false, false);
    SqueezeKeepsClean(t);
    CleanMeansNoToken(Squeeze(t));
    SqueezeNotLonger(t);
    Squeeze(t)
  }

  /** Scrubbing keeps every character of the normalised text that no
      whole-word `nan` covers, in order, and squeezes the whitespace between
      them. */
  lemma ScrubKeepsUncovered(v: PyValue)
    ensures ScrubNanTokens(v) == Squeeze(Uncovered(NormalizeText(v)))
  {
    RemoveNanDeletesTokens(NormalizeText(v));
  }

  /** Squeezing never lengthens a string. */
  lemma SqueezeNotLonger(s: string)
    ensures |Squeeze(s)| <= |s|
  {
  }

  /** Text that is normalised and holds no `nan` token is left unchanged. */
  lemma {:induction false} ScrubKeepsClean(v: PyValue)
    requires HasNoNanToken(NormalizeText(v))
    ensures ScrubNanTokens(v) == NormalizeText(v)
  {
    var s := NormalizeText(v);
    CleanMeansNoToken(s);
    RemoveNanKeepsClean(s, false);
    SqueezeKeepsSqueezed(s);
  }

  /** Scrubbing is idempotent. */
  lemma {:induction false} ScrubIdempotent(v: PyValue)
    ensures ScrubNanTokens(PStr(ScrubNanTokens(v))) == ScrubNanTokens(v)
  {
    ScrubFixedPoint(ScrubNanTokens(v));
  }

  /** Normalised text without a `nan` token is its own scrub. */
  lemma ScrubFixedPoint(s: string)
    requires IsNormalized(s) && HasNoNanToken(s)
    ensures ScrubNanTokens(PStr(s)) == s
  {
    NormalizeTextKeepsNormalized(s);
    ScrubKeepsClean(PStr(s));
  }

  /** The result is unchanged exactly when the normalised text had no token. */
  lemma {:induction false} ScrubChangesIffToken(v: PyValue)
    ensures ScrubNanTokens(v) == NormalizeText(v) <==> HasNoNanToken(NormalizeText(v))
  {
    if HasNoNanToken(NormalizeText(v)) {
      ScrubKeepsClean(v);
    }
  }
}
