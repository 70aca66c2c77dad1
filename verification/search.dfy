/** Result assembly after a nearest-neighbour query (src/search.py and the
    copy in web_app/app.py), and the plot snippet shown for each result. The
    index itself is not modelled: its answer arrives as a list of scores and a
    list of row positions. */
module Search {
  import opened Text

  // ---------------------------------------------------------------------------
  // Joining the index's answer to the metadata

  /** One result row: the score column, inserted first, then the metadata row. */
  datatype Hit<R, S> = Hit(score: S, row: R)

  /** `meta.iloc[ids]` with `score` inserted as the first column and the index
      reset to `0..k-1`: result `i` is metadata row `ids[i]` scored `scores[i]`. */
  function Retrieve<R, S>(meta: seq<R>, scores: seq<S>, ids: seq<int>): (r: seq<Hit<R, S>>)
    requires |scores| == |ids|
    requires forall i :: 0 <= i < |ids| ==> 0 <= ids[i] < |meta|
    ensures |r| == |ids|
    ensures forall i :: 0 <= i < |r| ==> r[i].row == meta[ids[i]] && r[i].score == scores[i]
    decreases |ids|
  {
    if |ids| == 0 then []
    else [Hit(scores[0], meta[ids[0]])] + Retrieve(meta, scores[1..], ids[1..])
  }

  /** Retrieval neither filters nor reorders: the answer for a longer id list
      starts with the answer for its prefix. */
  lemma {:induction false} RetrievePrefix<R, S>(meta: seq<R>, scores: seq<S>, ids: seq<int>, k: nat)
    requires |scores| == |ids| && k <= |ids|
    requires forall i :: 0 <= i < |ids| ==> 0 <= ids[i] < |meta|
    ensures Retrieve(meta, scores[..k], ids[..k]) == Retrieve(meta, scores, ids)[..k]
  {
    var a, b := Retrieve(meta, scores[..k], ids[..k]), Retrieve(meta, scores, ids)[..k];
    assert |a| == |b|;
    forall i | 0 <= i < |a|
      ensures a[i] == b[i]
    {
      assert a[i].row == meta[ids[i]] && a[i].score == scores[i];
    }
  }

  // ---------------------------------------------------------------------------
  // Snippets

  /** The default width of `snippet` in src/search.py. */
  const SearchSnippetWidth := 180
  /** The default width of `snippet` in web_app/app.py. */
  const AppSnippetWidth := 240

  /** `str.replace("\n", " ")`. */
  function ReplaceNewlines(s: string): (r: string)
    ensures |r| == |s|
    ensures forall i :: 0 <= i < |s| ==> r[i] == if s[i] == '\n' then ' ' else s[i]
  {
    seq(|s|, i requires 0 <= i < |s| => if s[i] == '\n' then ' ' else s[i])
  }

  predicate NoNewline(s: string) {
    forall i :: 0 <= i < |s| ==> s[i] != '\n'
  }

  /** Python's `t[:m]`: a negative `m` counts from the end. */
  function PrefixSlice(t: string, m: int): (r: string)
    ensures |r| <= |t| && r == t[..|r|]
    ensures 0 <= m <= |t| ==> |r| == m
    ensures m < 0 ==> |r| == if |t| + m >= 0 then |t| + m else 0
  {
    if m >= 0 then (if m <= |t| then t[..m] else t)
    else if |t| + m >= 0 then t[..|t| + m]
    else ""
  }

  /** The text a snippet is cut from: newlines become spaces, ends are stripped. */
  function SnippetSource(text: string): (t: string)
    ensures NoNewline(t) && Trimmed(t)
  {
    var u := ReplaceNewlines(text);
    StripIsSlice(u);
    Strip(u)
  }

  /** `snippet(text, n)`: the cleaned text when it fits in `n` characters,
      otherwise its first `n - 3` characters followed by `...`. */
  function Snippet(text: string, n: int): (r: string)
    ensures NoNewline(r)
    ensures |SnippetSource(text)| <= n ==> r == SnippetSource(text)
    ensures |SnippetSource(text)| > n && n >= 3 ==>
      |r| == n && r == SnippetSource(text)[..n - 3] + "..."
  {
    var t := SnippetSource(text);
    if |t| <= n then t else PrefixSlice(t, n - 3) + "..."
  }

  /** For widths of at least three, a snippet is never longer than the width,
      and taking the snippet of a snippet changes nothing. */
  lemma SnippetIdempotent(text: string, n: int)
    requires n >= 3
    ensures |Snippet(text, n)| <= n
    ensures Snippet(Snippet(text, n), n) == Snippet(text, n)
  {
    var t := SnippetSource(text);
    var r := Snippet(text, n);
    assert ReplaceNewlines(r) == r;
    if |t| > n {
      assert r[|r| - 1] == '.';
      if n > 3 {
        assert r[0] == t[0];
      }
    }
    StripKeepsTrimmed(r);
  }
}
