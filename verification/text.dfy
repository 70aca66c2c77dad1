/** String-level building blocks of the text normaliser (utils/text.py):
    character classes, control-character replacement, whitespace squeezing,
    whitespace-separated fields and whole-word `nan` removal. */
module Text {
  import opened Seqs

  // ---------------------------------------------------------------------------
  // Character classes

  /** The regex class `[\x00-\x1f\x7f]`. */
  predicate IsControl(c: char) {
    c as int <= 0x1F || c as int == 0x7F
  }

  /** Python's `\s` on `str` patterns: the characters `str.isspace()` accepts. */
  predicate IsSpace(c: char) {
    var n := c as int;
    (0x09 <= n <= 0x0D) || (0x1C <= n <= 0x20) || n == 0x85 || n == 0xA0 || n == 0x1680
    || (0x2000 <= n <= 0x200A) || n == 0x2028 || n == 0x2029 || n == 0x202F || n == 0x205F
    || n == 0x3000
  }

  /** Python's `\w` on `str` patterns (alphanumeric or underscore).  ASCII and
      Latin-1 are exact; above U+00FF every character except whitespace and the
      punctuation/symbol blocks U+2000-U+2BFF and U+3000-U+303F counts as a word
      character. */
  predicate IsWordChar(c: char) {
    var n := c as int;
    if n < 0x80 then ('a' <= c <= 'z') || ('A' <= c <= 'Z') || ('0' <= c <= '9') || c == '_'
    else if n <= 0xBF then
      n == 0xAA || n == 0xB2 || n == 0xB3 || n == 0xB5 || n == 0xB9 || n == 0xBA
      || n == 0xBC || n == 0xBD || n == 0xBE
    else if n <= 0xFF then n != 0xD7 && n != 0xF7
    else !IsSpace(c) && !(0x2000 <= n <= 0x2BFF) && !(0x3000 <= n <= 0x303F)
  }

  // ---------------------------------------------------------------------------
  // Shape predicates

  predicate NoControls(s: string) {
    forall i :: 0 <= i < |s| ==> !IsControl(s[i])
  }

  /** The only whitespace character that occurs is the plain space. */
  predicate OnlyPlainSpaces(s: string) {
    forall i :: 0 <= i < |s| ==> IsSpace(s[i]) ==> s[i] == ' '
  }

  /** No two whitespace characters are adjacent. */
  predicate NoDoubleSpace(s: string) {
    forall i :: 0 <= i < |s| - 1 ==> !IsSpace(s[i]) || !IsSpace(s[i + 1])
  }

  /** No leading or trailing whitespace. */
  predicate Trimmed(s: string) {
    |s| > 0 ==> !IsSpace(s[0]) && !IsSpace(s[|s| - 1])
  }

  /** What `re.sub(r"\s+", " ", s).strip()` produces. */
  predicate IsSqueezed(s: string) {
    OnlyPlainSpaces(s) && NoDoubleSpace(s) && Trimmed(s)
  }

  /** What `normalize_text` produces. */
  predicate IsNormalized(s: string) {
    NoControls(s) && IsSqueezed(s)
  }

  // ---------------------------------------------------------------------------
  // Control characters, stripping and whitespace runs

  /** `re.sub(r"[\x00-\x1f\x7f]", " ", s)`. */
  function ReplaceControls(s: string): (r: string)
    ensures |r| == |s|
    ensures NoControls(r)
    ensures forall i :: 0 <= i < |s| ==> r[i] == if IsControl(s[i]) then ' ' else s[i]
  {
    seq(|s|, i requires 0 <= i < |s| => if IsControl(s[i]) then ' ' else s[i])
  }

  /** `s.lstrip()`. */
  function TrimStart(s: string): (r: string)
    ensures |r| <= |s| && r == s[|s| - |r|..]
    ensures |r| > 0 ==> !IsSpace(r[0])
    ensures |s| > 0 && IsSpace(s[0]) ==> |r| < |s|
    ensures forall i :: 0 <= i < |s| - |r| ==> IsSpace(s[i])
    decreases |s|
  {
    if |s| > 0 && IsSpace(s[0]) then
      var r := TrimStart(s[1..]);
      assert forall i :: 1 <= i < |s| - |r| ==> s[i] == s[1..][i - 1];
      r
    else s
  }

  /** `s.rstrip()`. */
  function TrimEnd(s: string): (r: string)
    ensures |r| <= |s| && r == s[..|r|]
    ensures |r| > 0 ==> !IsSpace(r[|r| - 1])
    ensures forall i :: |r| <= i < |s| ==> IsSpace(s[i])
    decreases |s|
  {
    if |s| > 0 && IsSpace(s[|s| - 1]) then
      var r := TrimEnd(s[..|s| - 1]);
      assert forall i :: |r| <= i < |s| - 1 ==> s[i] == s[..|s| - 1][i];
      r
    else s
  }

  /** `s.strip()`. */
  function Strip(s: string): (r: string)
    ensures Trimmed(r)
  {
    TrimEnd(TrimStart(s))
  }

  /** `r` is the slice of `s` at `k`, with only whitespace before and after it. */
  predicate MiddleSlice(s: string, r: string, k: nat) {
    && k + |r| <= |s|
    && r == s[k..k + |r|]
    && (forall i :: 0 <= i < k ==> IsSpace(s[i]))
    && (forall i :: k + |r| <= i < |s| ==> IsSpace(s[i]))
  }

  /** `strip()` cuts whitespace off both ends and keeps the middle as it is. */
  lemma {:induction false} StripIsSlice(s: string)
    ensures MiddleSlice(s, Strip(s), |s| - |TrimStart(s)|)
  {
    var t := TrimStart(s);
    var r := TrimEnd(t);
    assert Strip(s) == r;
    NestedSlice(s, t, r, |s| - |t|);
  }

  /** A prefix `r` of the suffix `t` of `s` starting at `k` is the slice of
      `s` at `k`; whatever follows `r` in `t` follows it in `s`. */
  lemma NestedSlice(s: string, t: string, r: string, k: nat)
    requires k <= |s| && t == s[k..]
    requires |r| <= |t| && r == t[..|r|]
    requires forall i :: 0 <= i < k ==> IsSpace(s[i])
    requires forall i :: |r| <= i < |t| ==> IsSpace(t[i])
    ensures MiddleSlice(s, r, k)
  {
    forall i | k + |r| <= i < |s|
      ensures IsSpace(s[i])
    {
      assert s[i] == t[i - k];
    }
  }

  /** A string without surrounding whitespace is its own `strip()`. */
  lemma {:induction false} StripKeepsTrimmed(s: string)
    requires Trimmed(s)
    ensures Strip(s) == s
  {
    assert TrimStart(s) == s;
  }

  /** `re.sub(r"\s+", " ", s)`: every maximal whitespace run becomes one space. */
  function Collapse(s: string): (r: string)
    ensures |r| <= |s|
    ensures |r| == 0 <==> |s| == 0
    ensures |s| > 0 ==> (IsSpace(r[0]) <==> IsSpace(s[0]))
    ensures OnlyPlainSpaces(r) && NoDoubleSpace(r)
    ensures NoControls(s) ==> NoControls(r)
    decreases |s|
  {
    if |s| == 0 then ""
    else if IsSpace(s[0]) then
      var t := TrimStart(s);
      var c := Collapse(t);
      SliceKeepsShape(s, |s| - |t|, |s|);
      ConsShape(' ', c);
      " " + c
    else
      var c := Collapse(s[1..]);
      SliceKeepsShape(s, 1, |s|);
      ConsShape(s[0], c);
      [s[0]] + c
  }

  /** One character in front of a single-spaced string: the result is still
      single-spaced unless a space meets a space, and adds no control
      character unless the character is one. */
  lemma ConsShape(x: char, c: string)
    requires OnlyPlainSpaces(c) && NoDoubleSpace(c)
    requires IsSpace(x) ==> x == ' ' && (|c| == 0 || !IsSpace(c[0]))
    ensures OnlyPlainSpaces([x] + c) && NoDoubleSpace([x] + c)
    ensures NoControls(c) && !IsControl(x) ==> NoControls([x] + c)
  {
    assert forall i :: 1 <= i < |[x] + c| ==> ([x] + c)[i] == c[i - 1];
  }

  /** `re.sub(r"\s+", " ", s).strip()`. */
  function Squeeze(s: string): (r: string)
    ensures IsSqueezed(r)
    ensures NoControls(s) ==> NoControls(r)
  {
    var c := Collapse(s);
    StripKeepsShape(c);
    Strip(c)
  }

  /** Stripping a string keeps its shape properties and adds trimmed ends. */
  lemma StripKeepsShape(c: string)
    requires OnlyPlainSpaces(c) && NoDoubleSpace(c)
    ensures IsSqueezed(Strip(c))
    ensures NoControls(c) ==> NoControls(Strip(c))
  {
    var t := TrimStart(c);
    SliceKeepsShape(c, |c| - |t|, |c|);
    SliceKeepsShape(t, 0, |TrimEnd(t)|);
  }

  /** Every slice of a string keeps its shape properties. */
  lemma SliceKeepsShape(s: string, a: nat, b: nat)
    requires a <= b <= |s|
    ensures OnlyPlainSpaces(s) ==> OnlyPlainSpaces(s[a..b])
    ensures NoDoubleSpace(s) ==> NoDoubleSpace(s[a..b])
    ensures NoControls(s) ==> NoControls(s[a..b])
  {
    assert forall i :: 0 <= i < b - a ==> s[a..b][i] == s[a + i];
  }

  /** The string part of `normalize_text`: control characters become spaces,
      whitespace runs become one space, and the ends are stripped. */
  function Normalize(s: string): (r: string)
    ensures IsNormalized(r)
  {
    Squeeze(ReplaceControls(s))
  }

  // ---------------------------------------------------------------------------
  // Fixed points

  lemma {:induction false} CollapseKeepsSingleSpaced(s: string)
    requires OnlyPlainSpaces(s) && NoDoubleSpace(s)
    ensures Collapse(s) == s
    decreases |s|
  {
    if |s| > 0 {
      SliceKeepsShape(s, 1, |s|);
      CollapseKeepsSingleSpaced(s[1..]);
      if IsSpace(s[0]) {
        SingleSpaceHead(s);
        CollapseSpaceStep(s);
      } else {
        CollapseCons(s);
      }
    }
  }

  /** A single plain space at the head of a single-spaced string. */
  lemma SingleSpaceHead(s: string)
    requires OnlyPlainSpaces(s) && NoDoubleSpace(s)
    requires |s| > 0 && IsSpace(s[0])
    ensures s == " " + s[1..] && TrimStart(s) == s[1..]
  {
    if |s| > 1 {
      assert !IsSpace(s[1]);
    }
  }

  /** Collapsing a string that starts with a non-space keeps that character. */
  lemma CollapseCons(s: string)
    requires |s| > 0 && !IsSpace(s[0])
    ensures Collapse(s) == [s[0]] + Collapse(s[1..])
    ensures s == [s[0]] + s[1..]
  {
  }

  /** A squeezed string is a fixed point of squeezing. */
  lemma SqueezeKeepsSqueezed(s: string)
    requires IsSqueezed(s)
    ensures Squeeze(s) == s
  {
    CollapseKeepsSingleSpaced(s);
  }

  /** A normalised string is a fixed point of `Normalize`. */
  lemma NormalizeKeepsNormalized(s: string)
    requires IsNormalized(s)
    ensures Normalize(s) == s
  {
    assert ReplaceControls(s) == s;
    SqueezeKeepsSqueezed(s);
  }

  /** Normalising is idempotent. */
  lemma NormalizeIdempotent(s: string)
    ensures Normalize(Normalize(s)) == Normalize(s)
  {
    NormalizeKeepsNormalized(Normalize(s));
  }

  // ---------------------------------------------------------------------------
  // Whitespace-separated fields: Python's `s.split()`

  /** A non-empty run of non-whitespace characters. */
  predicate IsField(w: string) {
    |w| > 0 && forall j :: 0 <= j < |w| ==> !IsSpace(w[j])
  }

  function Flush(cur: string): seq<string> {
    if cur == "" then [] else [cur]
  }

  /** The fields of `s`, where `cur` is the field read so far. */
  function SplitFrom(s: string, cur: string): (r: seq<string>)
    requires forall j :: 0 <= j < |cur| ==> !IsSpace(cur[j])
    ensures forall k :: 0 <= k < |r| ==> IsField(r[k])
    decreases |s|
  {
    if |s| == 0 then Flush(cur)
    else if IsSpace(s[0]) then Flush(cur) + SplitFrom(s[1..], "")
    else SplitFrom(s[1..], cur + [s[0]])
  }

  /** `s.split()`: the maximal runs of non-whitespace characters, in order. */
  function Fields(s: string): (r: seq<string>)
    ensures forall k :: 0 <= k < |r| ==> IsField(r[k])
  {
    SplitFrom(s, "")
  }

  /** `" ".join(fields)`. */
  function Unwords(fields: seq<string>): string {
    Join(fields, " ")
  }

  lemma {:induction false} SplitAfterSpace(s: string, c: char, cur: string)
    requires IsSpace(c)
    requires forall j :: 0 <= j < |cur| ==> !IsSpace(cur[j])
    ensures SplitFrom(s + [c], cur) == SplitFrom(s, cur)
    decreases |s|
  {
    if |s| == 0 {
      assert (s + [c])[1..] == [];
    } else {
      assert (s + [c])[0] == s[0];
      assert (s + [c])[1..] == s[1..] + [c];
      if IsSpace(s[0]) {
        SplitAfterSpace(s[1..], c, "");
      } else {
        SplitAfterSpace(s[1..], c, cur + [s[0]]);
      }
    }
  }

  lemma {:induction false} TrimEndKeepsFields(s: string, cur: string)
    requires forall j :: 0 <= j < |cur| ==> !IsSpace(cur[j])
    ensures SplitFrom(TrimEnd(s), cur) == SplitFrom(s, cur)
    decreases |s|
  {
    if |s| > 0 && IsSpace(s[|s| - 1]) {
      var t := s[..|s| - 1];
      assert s == t + [s[|s| - 1]];
      SplitAfterSpace(t, s[|s| - 1], cur);
      TrimEndKeepsFields(t, cur);
    }
  }

  lemma {:induction false} TrimStartKeepsFields(s: string)
    ensures Fields(TrimStart(s)) == Fields(s)
    decreases |s|
  {
    if |s| > 0 && IsSpace(s[0]) {
      TrimStartKeepsFields(s[1..]);
    }
  }

  lemma {:induction false} CollapseKeepsFields(s: string, cur: string)
    requires forall j :: 0 <= j < |cur| ==> !IsSpace(cur[j])
    ensures SplitFrom(Collapse(s), cur) == SplitFrom(s, cur)
    decreases |s|
  {
    if |s| > 0 {
      var c := Collapse(s);
      if IsSpace(s[0]) {
        var t := TrimStart(s);
        assert c[0] == ' ' && c[1..] == Collapse(t);
        CollapseKeepsFields(t, "");
        TrimStartKeepsFields(s[1..]);
      } else {
        assert c[0] == s[0] && c[1..] == Collapse(s[1..]);
        CollapseKeepsFields(s[1..], cur + [s[0]]);
      }
    }
  }

  /** Squeezing whitespace does not change the fields. */
  lemma SqueezeKeepsFields(s: string)
    ensures Fields(Squeeze(s)) == Fields(s)
  {
    var c := Collapse(s);
    CollapseKeepsFields(s, "");
    TrimStartKeepsFields(c);
    TrimEndKeepsFields(TrimStart(c), "");
  }

  lemma {:induction false} SplitNonEmpty(s: string, cur: string)
    requires forall j :: 0 <= j < |cur| ==> !IsSpace(cur[j])
    requires cur != "" || (|s| > 0 && !IsSpace(s[0]))
    ensures |SplitFrom(s, cur)| > 0
    decreases |s|
  {
    if |s| > 0 && !IsSpace(s[0]) {
      SplitNonEmpty(s[1..], cur + [s[0]]);
    }
  }

  lemma {:induction false} UnwordsSplit(s: string, cur: string)
    requires forall j :: 0 <= j < |cur| ==> !IsSpace(cur[j])
    requires OnlyPlainSpaces(s) && NoDoubleSpace(s)
    requires |s| > 0 ==> !IsSpace(s[|s| - 1])
    requires cur == "" && |s| > 0 ==> !IsSpace(s[0])
    ensures Unwords(SplitFrom(s, cur)) == cur + s
    decreases |s|
  {
    if |s| == 0 {
    } else {
      SliceKeepsShape(s, 1, |s|);
      if IsSpace(s[0]) {
        assert |s| > 1 && !IsSpace(s[1]);
        SplitNonEmpty(s[1..], "");
        UnwordsSplit(s[1..], "");
        var rest := SplitFrom(s[1..], "");
        assert ([cur] + rest)[1..] == rest;
        assert s == " " + s[1..];
      } else {
        UnwordsSplit(s[1..], cur + [s[0]]);
        assert cur + [s[0]] + s[1..] == cur + s;
      }
    }
  }

  /** A squeezed string is its own fields joined by single spaces. */
  lemma SqueezedIsUnwords(s: string)
    requires IsSqueezed(s)
    ensures Unwords(Fields(s)) == s
  {
    UnwordsSplit(s, "");
  }

  /** `normalize_text` on a string is Python's `" ".join(s.split())` after
      control characters have become spaces. */
  lemma NormalizeIsUnwords(s: string)
    ensures Normalize(s) == Unwords(Fields(ReplaceControls(s)))
  {
    SqueezeKeepsFields(ReplaceControls(s));
    SqueezedIsUnwords(Normalize(s));
  }

  /** Fields of a concatenation whose parts meet at whitespace. */
  lemma {:induction false} SplitAppend(a: string, b: string, cur: string)
    requires forall j :: 0 <= j < |cur| ==> !IsSpace(cur[j])
    requires (|a| > 0 && IsSpace(a[|a| - 1])) || (|b| > 0 && IsSpace(b[0]))
    ensures SplitFrom(a + b, cur) == SplitFrom(a, cur) + Fields(b)
    decreases |a|
  {
    if |a| == 0 {
      assert a + b == b;
    } else {
      assert (a + b)[0] == a[0];
      assert (a + b)[1..] == a[1..] + b;
      if |a| == 1 {
        assert a[1..] + b == b;
        if !IsSpace(a[0]) {
          assert SplitFrom(b, cur + [a[0]]) == Flush(cur + [a[0]]) + SplitFrom(b[1..], "");
        }
      } else if IsSpace(a[0]) {
        SplitAppend(a[1..], b, "");
      } else {
        SplitAppend(a[1..], b, cur + [a[0]]);
      }
    }
  }

  lemma FieldsAppend(a: string, b: string)
    requires (|a| > 0 && IsSpace(a[|a| - 1])) || (|b| > 0 && IsSpace(b[0]))
    ensures Fields(a + b) == Fields(a) + Fields(b)
  {
    SplitAppend(a, b, "");
  }

  /** A single run of non-whitespace characters is one field. */
  lemma {:induction false} FieldOfWord(w: string, cur: string)
    requires forall j :: 0 <= j < |cur| ==> !IsSpace(cur[j])
    requires forall j :: 0 <= j < |w| ==> !IsSpace(w[j])
    ensures SplitFrom(w, cur) == Flush(cur + w)
    decreases |w|
  {
    if |w| > 0 {
      FieldOfWord(w[1..], cur + [w[0]]);
      assert cur + [w[0]] + w[1..] == cur + w;
    } else {
      assert cur + w == cur;
    }
  }

  // ---------------------------------------------------------------------------
  // Whole-word `nan` tokens: the regex `\bNaN\b` under re.IGNORECASE

  /** `s` starts with `nan` in any letter case, followed by a word boundary. */
  predicate NanPrefix(s: string) {
    && |s| >= 3
    && (s[0] == 'n' || s[0] == 'N')
    && (s[1] == 'a' || s[1] == 'A')
    && (s[2] == 'n' || s[2] == 'N')
    && (|s| == 3 || !IsWordChar(s[3]))
  }

  /** `\bNaN\b` matches `s` at position `i`. */
  predicate NanTokenAt(s: string, i: int) {
    0 <= i <= |s| - 3 && (i == 0 || !IsWordChar(s[i - 1])) && NanPrefix(s[i..])
  }

  /** No whole-word, case-insensitive `nan` occurs in `s`. */
  predicate HasNoNanToken(s: string) {
    forall i :: 0 <= i <= |s| - 3 ==> !NanTokenAt(s, i)
  }

  /** The same property read left to right: `afterWord` tells whether the
      character before `s` is a word character. */
  predicate CleanFrom(s: string, afterWord: bool)
    decreases |s|
  {
    |s| == 0 || (!(!afterWord && NanPrefix(s)) && CleanFrom(s[1..], IsWordChar(s[0])))
  }

  /** `re.sub(r"\bNaN\b", "", s, flags=re.IGNORECASE)`, scanning left to right;
      `afterWord` tells whether the character before `s` is a word character. */
  function RemoveNanFrom(s: string, afterWord: bool): (r: string)
    ensures |r| <= |s|
    ensures NoControls(s) ==> NoControls(r)
    decreases |s|
  {
    if |s| == 0 then ""
    else if !afterWord && NanPrefix(s) then
      var r := RemoveNanFrom(s[3..], true);
      SliceKeepsShape(s, 3, |s|);
      r
    else
      var r := RemoveNanFrom(s[1..], IsWordChar(s[0]));
      SliceKeepsShape(s, 1, |s|);
      [s[0]] + r
  }

  /** `re.sub(r"\bNaN\b", "", s, flags=re.IGNORECASE)`. */
  function RemoveNan(s: string): string {
    RemoveNanFrom(s, false)
  }

  /** The removal deletes exactly the characters some whole-word `nan` covers
      and keeps every other character, in order: a `nan` inside a longer word
      such as `Nana` is not a token, so the word is kept whole. */
  lemma RemoveNanDeletesTokens(s: string)
    ensures RemoveNan(s) == Uncovered(s)
  {
    RemoveNanIsUncovered(s, 0, false);
    assert s[0..] == s;
  }

  /** Position `i` lies inside a whole-word `nan`: one starts at `i`, `i - 1`
      or `i - 2`. */
  predicate Covered(s: string, i: int) {
    NanTokenAt(s, i) || NanTokenAt(s, i - 1) || NanTokenAt(s, i - 2)
  }

  /** The characters of `s` from position `k` on that no token covers. */
  function UncoveredFrom(s: string, k: nat): string
    requires k <= |s|
    decreases |s| - k
  {
    if k == |s| then "" else (if Covered(s, k) then "" else [s[k]]) + UncoveredFrom(s, k + 1)
  }

  /** The characters of `s` that no token covers, in order. */
  function Uncovered(s: string): string {
    UncoveredFrom(s, 0)
  }

  /** The scan from position `k`, started in the context the original string
      gives it and not inside a token, keeps exactly the uncovered characters. */
  lemma {:induction false} RemoveNanIsUncovered(s: string, k: nat, afterWord: bool)
    requires k <= |s|
    requires afterWord == (k > 0 && IsWordChar(s[k - 1]))
    requires !NanTokenAt(s, k - 1) && !NanTokenAt(s, k - 2)
    ensures RemoveNanFrom(s[k..], afterWord) == UncoveredFrom(s, k)
    decreases |s| - k
  {
    if k < |s| {
      var t := s[k..];
      if !afterWord && NanPrefix(t) {
        assert NanTokenAt(s, k);
        NanTokenSpan(s, k);
        assert t[3..] == s[k + 3..];
        RemoveNanIsUncovered(s, k + 3, true);
        SkipCovered(s, k);
        SkipCovered(s, k + 1);
        SkipCovered(s, k + 2);
      } else {
        assert !NanTokenAt(s, k);
        assert t[1..] == s[k + 1..] && t[0] == s[k];
        RemoveNanIsUncovered(s, k + 1, IsWordChar(s[k]));
      }
    }
  }

  /** A covered character is dropped. */
  lemma SkipCovered(s: string, k: nat)
    requires k < |s| && Covered(s, k)
    ensures UncoveredFrom(s, k) == UncoveredFrom(s, k + 1)
  {
  }

  /** The three letters of a token are word characters, so no other token
      starts inside it, and the scan resumes after it in a word context. */
  lemma NanTokenSpan(s: string, k: nat)
    requires NanTokenAt(s, k)
    ensures k + 3 <= |s| && IsWordChar(s[k + 2])
    ensures !NanTokenAt(s, k + 1) && !NanTokenAt(s, k + 2)
  {
    assert s[k..][0] == s[k] && s[k..][1] == s[k + 1] && s[k..][2] == s[k + 2];
  }

  lemma {:induction false} CleanFromMeansNoToken(s: string, afterWord: bool)
    ensures CleanFrom(s, afterWord) <==> forall i :: 0 <= i <= |s| - 3 && NanTokenAt(s, i) ==> i == 0 && afterWord
    decreases |s|
  {
    if |s| > 0 {
      CleanFromMeansNoToken(s[1..], IsWordChar(s[0]));
      forall j | 0 <= j
        ensures NanTokenAt(s, j + 1) <==> NanTokenAt(s[1..], j) && (j > 0 || !IsWordChar(s[0]))
      {
        if j + 1 <= |s| - 3 {
          assert s[1..][j..] == s[j + 1..];
          if j > 0 {
            assert s[1..][j - 1] == s[j];
          }
        }
      }
      if CleanFrom(s, afterWord) {
        forall i | 0 < i <= |s| - 3
          ensures !NanTokenAt(s, i)
        {
          assert !NanTokenAt(s[1..], i - 1) || (i == 1 && IsWordChar(s[0]));
        }
      } else {
        if !afterWord && NanPrefix(s) {
          assert NanTokenAt(s, 0);
        } else {
          var i :| 0 <= i <= |s[1..]| - 3 && NanTokenAt(s[1..], i) && !(i == 0 && IsWordChar(s[0]));
          assert NanTokenAt(s, i + 1);
        }
      }
    }
  }

  /** Reading from the start of a string, the two views agree. */
  lemma CleanMeansNoToken(s: string)
    ensures CleanFrom(s, false) <==> HasNoNanToken(s)
  {
    CleanFromMeansNoToken(s, false);
  }

  /** After a word character nothing can be removed from a leading word
      character: it is kept. */
  lemma KeepAfterWord(s: string)
    requires |s| > 0
    ensures RemoveNanFrom(s, true) == [s[0]] + RemoveNanFrom(s[1..], IsWordChar(s[0]))
  {
  }

  /** If a removal result starts with a `nan` token that is not at the start of
      the scan, the input started with the same token. */
  lemma {:induction false} KeptPrefixIsNan(s: string)
    requires |s| > 0 && IsWordChar(s[0])
    requires NanPrefix([s[0]] + RemoveNanFrom(s[1..], true))
    ensures NanPrefix(s)
  {
    var r := [s[0]] + RemoveNanFrom(s[1..], true);
    assert |s| >= 3;
    KeepAfterWord(s[1..]);
    assert s[1..][1..] == s[2..];
    assert r[1] == s[1];
    KeepAfterWord(s[2..]);
    assert s[2..][1..] == s[3..];
    assert r[2] == s[2];
    assert r[3..] == RemoveNanFrom(s[3..], true);
    if |s| > 3 {
      KeepAfterWord(s[3..]);
      assert r[3] == s[3];
    }
  }

  /** The scan leaves no token behind.  `afterWord` is the context the scan
      assumed; `outAfterWord` the context the result is read in: they agree
      unless a token was just removed, and then `s` starts at a non-word
      character. */
  lemma {:induction false} RemoveNanLeavesClean(s: string, afterWord: bool, outAfterWord: bool)
    requires afterWord == outAfterWord || (|s| > 0 ==> !IsWordChar(s[0]))
    ensures CleanFrom(RemoveNanFrom(s, afterWord), outAfterWord)
    decreases |s|
  {
    if |s| > 0 {
      if !afterWord && NanPrefix(s) {
        RemoveNanLeavesClean(s[3..], true, outAfterWord);
      } else {
        var w := IsWordChar(s[0]);
        RemoveNanLeavesClean(s[1..], w, w);
        var r := RemoveNanFrom(s, afterWord);
        assert r == [s[0]] + RemoveNanFrom(s[1..], w);
        assert r[1..] == RemoveNanFrom(s[1..], w);
        if !outAfterWord && NanPrefix(r) {
          KeptPrefixIsNan(s);
        }
      }
    }
  }

  /** A clean string is left unchanged by the scan. */
  lemma {:induction false} RemoveNanKeepsClean(s: string, afterWord: bool)
    requires CleanFrom(s, afterWord)
    ensures RemoveNanFrom(s, afterWord) == s
    decreases |s|
  {
    if |s| > 0 {
      RemoveNanKeepsClean(s[1..], IsWordChar(s[0]));
    }
  }

  lemma {:induction false} TrimStartKeepsClean(s: string)
    requires CleanFrom(s, false)
    ensures CleanFrom(TrimStart(s), false)
    decreases |s|
  {
    if |s| > 0 && IsSpace(s[0]) {
      TrimStartKeepsClean(s[1..]);
    }
  }

  lemma {:induction false} DropTrailingSpaceKeepsClean(s: string, afterWord: bool)
    requires |s| > 0 && IsSpace(s[|s| - 1])
    requires CleanFrom(s, afterWord)
    ensures CleanFrom(s[..|s| - 1], afterWord)
    decreases |s|
  {
    var t := s[..|s| - 1];
    if |t| > 0 {
      assert t[1..] == s[1..][..|s[1..]| - 1];
      DropTrailingSpaceKeepsClean(s[1..], IsWordChar(s[0]));
      if NanPrefix(t) {
        assert s[..3] == t[..3];
      }
    }
  }

  lemma {:induction false} TrimEndKeepsClean(s: string, afterWord: bool)
    requires CleanFrom(s, afterWord)
    ensures CleanFrom(TrimEnd(s), afterWord)
    decreases |s|
  {
    if |s| > 0 && IsSpace(s[|s| - 1]) {
      DropTrailingSpaceKeepsClean(s, afterWord);
      TrimEndKeepsClean(s[..|s| - 1], afterWord);
    }
  }

  lemma {:induction false} CollapseKeepsClean(s: string, afterWord: bool)
    requires CleanFrom(s, afterWord)
    ensures CleanFrom(Collapse(s), afterWord)
    decreases |s|
  {
    if |s| > 0 {
      if IsSpace(s[0]) {
        var t := TrimStart(s);
        CollapseSpaceStep(s);
        CleanFromTail(s, afterWord);
        SpaceIsNotWordChar(s[0]);
        TrimStartKeepsClean(s[1..]);
        CollapseKeepsClean(t, false);
        SpaceThenClean(Collapse(t), afterWord);
      } else {
        CollapseKeepsClean(s[1..], IsWordChar(s[0]));
        CollapseStep(s);
        if !afterWord && NanPrefix(Collapse(s)) {
          CollapsedNanPrefix(s);
        }
        CleanFromCons(Collapse(s), afterWord);
      }
    }
  }

  /** Collapsing a string that starts with whitespace: one space, then the
      collapse of what follows the whitespace run. */
  lemma CollapseSpaceStep(s: string)
    requires |s| > 0 && IsSpace(s[0])
    ensures TrimStart(s) == TrimStart(s[1..])
    ensures Collapse(s) == " " + Collapse(TrimStart(s))
  {
  }

  /** A space never starts a `nan` token, nor counts as the word before one. */
  lemma SpaceThenClean(x: string, afterWord: bool)
    requires CleanFrom(x, false)
    ensures CleanFrom(" " + x, afterWord)
  {
    assert (" " + x)[1..] == x;
  }

  /** The left-to-right scan, one step back. */
  lemma CleanFromTail(c: string, afterWord: bool)
    requires |c| > 0 && CleanFrom(c, afterWord)
    ensures CleanFrom(c[1..], IsWordChar(c[0]))
  {
  }

  /** The left-to-right scan, one step. */
  lemma CleanFromCons(c: string, afterWord: bool)
    requires |c| > 0 && CleanFrom(c[1..], IsWordChar(c[0]))
    requires afterWord || !NanPrefix(c)
    ensures CleanFrom(c, afterWord)
  {
  }

  lemma CollapseStep(s: string)
    requires |s| > 0
    ensures Collapse(s)[0] == (if IsSpace(s[0]) then ' ' else s[0])
    ensures !IsSpace(s[0]) ==> Collapse(s)[1..] == Collapse(s[1..])
  {
  }

  lemma SpaceIsNotWordChar(c: char)
    ensures IsSpace(c) ==> !IsWordChar(c)
  {
  }

  /** A `nan` token at the start of a collapsed string was there before. */
  lemma {:induction false} CollapsedNanPrefix(s: string)
    requires |s| > 0 && !IsSpace(s[0])
    requires NanPrefix(Collapse(s))
    ensures NanPrefix(s)
  {
    var c := Collapse(s);
    CollapseStep(s);
    var c1 := Collapse(s[1..]);
    CollapseStep(s[1..]);
    assert c1[0] == s[1];
    assert s[1..][1..] == s[2..];
    var c2 := Collapse(s[2..]);
    assert c1[1..] == c2;
    assert c[2] == c2[0];
    CollapseStep(s[2..]);
    assert c2[0] == s[2];
    assert s[2..][1..] == s[3..];
    assert c2[1..] == Collapse(s[3..]);
    assert c[3..] == c2[1..];
    if |s| > 3 {
      CollapseStep(s[3..]);
      SpaceIsNotWordChar(s[3]);
    }
  }

  /** Squeezing whitespace cannot create a `nan` token. */
  lemma SqueezeKeepsClean(s: string)
    requires CleanFrom(s, false)
    ensures CleanFrom(Squeeze(s), false)
  {
    CollapseKeepsClean(s, false);
    TrimStartKeepsClean(Collapse(s));
    TrimEndKeepsClean(TrimStart(Collapse(s)), false);
  }

  // ---------------------------------------------------------------------------
  // Concatenating at a space

  /** The fields of a text with no space inside are the text itself. */
  lemma FieldsOfWord(w: string)
    requires |w| > 0 && forall j :: 0 <= j < |w| ==> !IsSpace(w[j])
    ensures Fields(w) == [w]
  {
    FieldOfWord(w, "");
    assert "" + w == w;
  }

  lemma UnwordsEmpty(fs: seq<string>)
    requires forall k :: 0 <= k < |fs| ==> IsField(fs[k])
    ensures Unwords(fs) == "" <==> fs == []
  {
    if |fs| > 1 {
      assert Unwords(fs) == fs[0] + " " + Join(fs[1..], " ");
    }
  }

  /** A squeezed text, split and rejoined, spends one character per field
      character and one per separator. */
  lemma SqueezedLength(s: string)
    requires IsSqueezed(s)
    ensures TotalLength(Fields(s)) + |Fields(s)| == if s == "" then 0 else |s| + 1
  {
    SqueezedIsUnwords(s);
    UnwordsEmpty(Fields(s));
    if Fields(s) != [] {
      JoinLength(Fields(s), " ");
    }
  }

  lemma ReplaceControlsKeeps(s: string)
    requires NoControls(s)
    ensures ReplaceControls(s) == s
  {
  }

  lemma NoControlsAppend(a: string, b: string)
    requires NoControls(a) && NoControls(b)
    ensures NoControls(a + b)
  {
    assert forall i :: 0 <= i < |a + b| ==> (a + b)[i] == if i < |a| then a[i] else b[i - |a|];
  }

  /** A text without the letter `n` in either case holds no `nan` token. */
  lemma CleanWithoutN(s: string, afterWord: bool)
    requires 'n' !in s && 'N' !in s
    ensures CleanFrom(s, afterWord)
  {
    CleanWithoutNanLetter(s, afterWord);
  }

  /** A text with no `a` or no `n` (in either case) holds no `nan` token. */
  lemma {:induction false} CleanWithoutNanLetter(s: string, afterWord: bool)
    requires (forall i :: 0 <= i < |s| ==> s[i] != 'a' && s[i] != 'A')
          || (forall i :: 0 <= i < |s| ==> s[i] != 'n' && s[i] != 'N')
    ensures CleanFrom(s, afterWord)
    decreases |s|
  {
    if |s| > 0 {
      assert forall i :: 0 <= i < |s[1..]| ==> s[1..][i] == s[i + 1];
      CleanWithoutNanLetter(s[1..], IsWordChar(s[0]));
    }
  }

  /** A text that starts with a non-word character ends a `nan` token before it. */
  lemma NanPrefixAppend(a: string, b: string)
    requires |b| > 0 && !IsWordChar(b[0])
    ensures NanPrefix(a + b) ==> NanPrefix(a)
  {
    if |a| > 3 {
      assert (a + b)[3] == a[3];
    } else if |a| < 3 {
      assert (a + b)[|a|] == b[0];
    }
  }

  /** Cleanliness survives concatenation before a non-word character. */
  lemma {:induction false} CleanAppend(a: string, b: string, afterWord: bool)
    requires |b| > 0 && !IsWordChar(b[0])
    requires CleanFrom(a, afterWord) && CleanFrom(b, false)
    ensures CleanFrom(a + b, afterWord)
    decreases |a|
  {
    if |a| == 0 {
      assert a + b == b;
    } else {
      NanPrefixAppend(a, b);
      assert (a + b)[1..] == a[1..] + b;
      CleanAppend(a[1..], b, IsWordChar(a[0]));
    }
  }

  /** Cleanliness survives concatenation after a non-word character. */
  lemma {:induction false} CleanAppendAfter(a: string, b: string, afterWord: bool)
    requires |a| > 0 && !IsWordChar(a[|a| - 1])
    requires CleanFrom(a, afterWord) && CleanFrom(b, false)
    ensures CleanFrom(a + b, afterWord)
    decreases |a|
  {
    assert (a + b)[1..] == a[1..] + b;
    if |a| == 1 {
      assert a[1..] + b == b;
    } else {
      if |a| >= 4 {
        assert (a + b)[..4] == a[..4];
      } else {
        assert (a + b)[|a| - 1] == a[|a| - 1];
      }
      CleanAppendAfter(a[1..], b, IsWordChar(a[0]));
    }
  }

  /** Joining two control-free, `nan`-free texts where one side of the seam is
      a space: still control-free and `nan`-free, and the fields concatenate. */
  lemma JoinAtSpace(a: string, b: string)
    requires (|a| > 0 && a[|a| - 1] == ' ') || (|b| > 0 && b[0] == ' ')
    requires NoControls(a) && NoControls(b)
    requires CleanFrom(a, false) && CleanFrom(b, false)
    ensures NoControls(a + b) && CleanFrom(a + b, false)
    ensures Fields(a + b) == Fields(a) + Fields(b)
  {
    NoControlsAppend(a, b);
    FieldsAppend(a, b);
    if |a| > 0 && a[|a| - 1] == ' ' {
      CleanAppendAfter(a, b, false);
    } else {
      CleanAppend(a, b, false);
    }
  }
}
