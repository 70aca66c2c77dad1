/** The web page's data logic (web_app/app.py): sidebar options derived from
    the metadata, filters applied to the retrieved rows only, and the rank
    label each shown row carries. */
module App {
  import opened Wrappers
  import opened Seqs
  import opened Text
  import opened PyValues
  import opened Search

  /** A metadata row as the page loads it: the columns the embedding step
      saves (the search text is not among them) and `year_num`, the year read
      as a number (`None` when it is not one). */
  datatype MetaRow = MetaRow(
    title: string, year: PyValue, href: PyValue, extract: string,
    genresStr: string, castStr: string, source: string, yearNum: Option<int>)

  // ---------------------------------------------------------------------------
  // Sidebar: source options

  /** Python's string order: code points compared left to right, a proper
      prefix first. */
  predicate StrLt(a: string, b: string)
    decreases |a|
  {
    |b| > 0 && (|a| == 0 || a[0] < b[0] || (a[0] == b[0] && StrLt(a[1..], b[1..])))
  }

  lemma {:induction false} StrLtIrreflexive(a: string)
    ensures !StrLt(a, a)
    decreases |a|
  {
    if |a| > 0 {
      StrLtIrreflexive(a[1..]);
    }
  }

  lemma {:induction false} StrLtTransitive(a: string, b: string, c: string)
    requires StrLt(a, b) && StrLt(b, c)
    ensures StrLt(a, c)
    decreases |a|
  {
    if |a| > 0 && a[0] == b[0] && b[0] == c[0] {
      StrLtTransitive(a[1..], b[1..], c[1..]);
    }
  }

  lemma {:induction false} StrLtTotal(a: string, b: string)
    requires a != b
    ensures StrLt(a, b) || StrLt(b, a)
    decreases |a|
  {
    if |a| > 0 && |b| > 0 && a[0] == b[0] {
      assert a == [a[0]] + a[1..] && b == [b[0]] + b[1..];
      StrLtTotal(a[1..], b[1..]);
    }
  }

  /** Strictly increasing, hence without repeats. */
  predicate StrictlySorted(s: seq<string>) {
    forall i, j :: 0 <= i < j < |s| ==> StrLt(s[i], s[j])
  }

  /** Adds `x` to a strictly sorted list unless it is already there. */
  function Insert(x: string, s: seq<string>): (r: seq<string>)
    requires StrictlySorted(s)
    ensures StrictlySorted(r)
    ensures forall y :: y in r <==> y == x || y in s
    decreases |s|
  {
    if |s| == 0 then [x]
    else if x == s[0] then s
    else if StrLt(x, s[0]) then
      assert forall j :: 0 <= j < |s| ==> StrLt(x, s[j]) by {
        forall j | 0 < j < |s| {
          StrLtTransitive(x, s[0], s[j]);
        }
      }
      [x] + s
    else
      StrLtTotal(x, s[0]);
      var rest := Insert(x, s[1..]);
      assert forall y :: y in rest ==> StrLt(s[0], y);
      [s[0]] + rest
  }

  /** `sorted(set(values))`: each distinct value once, in increasing order. */
  function SortedDistinct(values: seq<string>): (r: seq<string>)
    ensures StrictlySorted(r)
    ensures forall y :: y in r <==> y in values
    decreases |values|
  {
    if |values| == 0 then []
    else Insert(values[|values| - 1], SortedDistinct(values[..|values| - 1]))
  }

  /** The source column without its blank entries, in row order. */
  function NonBlankSources(meta: seq<MetaRow>): (r: seq<string>)
    ensures forall s :: s in r <==> exists m :: m in meta && m.source == s && Strip(s) != ""
    decreases |meta|
  {
    if |meta| == 0 then []
    else
      var rest := NonBlankSources(meta[1..]);
      assert forall m :: m in meta <==> m == meta[0] || m in meta[1..];
      var s := meta[0].source;
      if Strip(s) != "" then [s] + rest else rest
  }

  /** The "Source" select box (line 70): `all`, then every distinct source that
      is not blank, sorted. */
  function SourceOptions(meta: seq<MetaRow>): (r: seq<string>)
    ensures |r| > 0 && r[0] == "all"
    ensures StrictlySorted(r[1..])
    ensures forall s :: s in r[1..] <==> exists m :: m in meta && m.source == s && Strip(s) != ""
  {
    var r := ["all"] + SortedDistinct(NonBlankSources(meta));
    assert r[1..] == SortedDistinct(NonBlankSources(meta));
    r
  }

  // ---------------------------------------------------------------------------
  // Sidebar: year bounds

  /** The known years, in order. */
  function KnownYears(meta: seq<MetaRow>): (r: seq<int>)
    ensures forall y :: y in r <==> exists m :: m in meta && m.yearNum == Some(y)
    decreases |meta|
  {
    if |meta| == 0 then []
    else
      var rest := KnownYears(meta[1..]);
      assert forall m :: m in meta <==> m == meta[0] || m in meta[1..];
      match meta[0].yearNum
      case None => rest
      case Some(y) => [y] + rest
  }

  function Min(s: seq<int>): (r: int)
    requires |s| > 0
    ensures r in s && forall y :: y in s ==> r <= y
    decreases |s|
  {
    if |s| == 1 then s[0]
    else
      var m := Min(s[1..]);
      assert forall y :: y in s ==> y == s[0] || y in s[1..];
      if s[0] <= m then s[0] else m
  }

  function Max(s: seq<int>): (r: int)
    requires |s| > 0
    ensures r in s && forall y :: y in s ==> y <= r
    decreases |s|
  {
    if |s| == 1 then s[0]
    else
      var m := Max(s[1..]);
      assert forall y :: y in s ==> y == s[0] || y in s[1..];
      if s[0] >= m then s[0] else m
  }

  const DefaultMinYear := 1900
  const DefaultMaxYear := 2026

  /** The year slider's bounds (lines 73-74): the smallest and largest known
      year, or 1900 and 2026 when no year is known. */
  function YearBounds(meta: seq<MetaRow>): (r: (int, int))
    ensures r.0 <= r.1
    ensures KnownYears(meta) == [] ==> r == (DefaultMinYear, DefaultMaxYear)
    ensures KnownYears(meta) != [] ==>
      && r.0 in KnownYears(meta) && r.1 in KnownYears(meta)
      && forall m :: m in meta && m.yearNum.Some? ==> r.0 <= m.yearNum.value <= r.1
  {
    var ys := KnownYears(meta);
    if |ys| == 0 then (DefaultMinYear, DefaultMaxYear)
    else
      assert ys[0] in ys;
      assert forall m :: m in meta && m.yearNum.Some? ==> m.yearNum.value in ys;
      (Min(ys), Max(ys))
  }

  // ---------------------------------------------------------------------------
  // Filters on the retrieved rows

  /** A retrieved row and its position in the retrieval order, the index label
      `reset_index` gave it. */
  datatype Candidate<S> = Candidate(position: nat, hit: Hit<MetaRow, S>)

  /** The retrieved rows, labelled `0..k-1` in retrieval order. */
  function Number<S(==,!new)>(hits: seq<Hit<MetaRow, S>>): (r: seq<Candidate<S>>)
    ensures |r| == |hits|
    ensures forall i :: 0 <= i < |r| ==> r[i].position == i && r[i].hit == hits[i]
  {
    seq(|hits|, i requires 0 <= i < |hits| => Candidate(i, hits[i]))
  }

  predicate SourceOk<S(==,!new)>(choice: string, c: Candidate<S>) {
    choice == "all" || c.hit.row.source == choice
  }

  /** The source filter (lines 86-87): skipped for `all`. */
  function SourceFilter<S(==,!new)>(choice: string, cs: seq<Candidate<S>>): (r: seq<Candidate<S>>)
    ensures choice == "all" ==> r == cs
    ensures forall i :: 0 <= i < |r| ==> r[i] in cs && SourceOk(choice, r[i])
    ensures forall i :: 0 <= i < |cs| && SourceOk(choice, cs[i]) ==> cs[i] in r
  {
    if choice == "all" then cs
    else Filter((c: Candidate<S>) => c.hit.row.source == choice, cs)
  }

  /** A missing year passes; a known one must lie in the inclusive range. */
  predicate YearOk<S(==,!new)>(lo: int, hi: int, c: Candidate<S>) {
    c.hit.row.yearNum.None? || lo <= c.hit.row.yearNum.value <= hi
  }

  /** The year filter (lines 89-90). */
  function YearFilter<S(==,!new)>(lo: int, hi: int, cs: seq<Candidate<S>>): (r: seq<Candidate<S>>)
    ensures forall i :: 0 <= i < |r| ==> r[i] in cs && YearOk(lo, hi, r[i])
    ensures forall i :: 0 <= i < |cs| && YearOk(lo, hi, cs[i]) ==> cs[i] in r
  {
    Filter((c: Candidate<S>) => YearOk(lo, hi, c), cs)
  }

  /** `str.lower()` on one character: ASCII and Latin-1 capitals. */
  function LowerChar(c: char): (r: char)
    ensures 'A' <= c <= 'Z' ==> r as int == c as int + 32 && 'a' <= r <= 'z'
    ensures !('A' <= c <= 'Z') && (c as int < 0xC0 || c as int > 0xDE || c as int == 0xD7) ==> r == c
  {
    if 'A' <= c <= 'Z' || (0xC0 <= c as int <= 0xDE && c as int != 0xD7) then (c as int + 32) as char
    else c
  }

  function Lower(s: string): (r: string)
    ensures |r| == |s|
    ensures forall i :: 0 <= i < |s| ==> r[i] == LowerChar(s[i])
  {
    seq(|s|, i requires 0 <= i < |s| => LowerChar(s[i]))
  }

  /** Lower-casing twice is lower-casing once. */
  lemma LowerIdempotent(s: string)
    ensures Lower(Lower(s)) == Lower(s)
  {
  }

  /** `s` begins with `sub`. */
  predicate StartsWith(s: string, sub: string) {
    |sub| <= |s| && s[..|sub|] == sub
  }

  /** `sub in s`: `sub` occurs at some position of `s`. */
  predicate Contains(s: string, sub: string)
    decreases |s|
  {
    StartsWith(s, sub) || (|s| > 0 && Contains(s[1..], sub))
  }

  /** `Contains` holds exactly when `sub` is the slice of `s` at some position. */
  lemma {:induction false} ContainsAt(s: string, sub: string)
    ensures Contains(s, sub) <==> exists i :: 0 <= i <= |s| - |sub| && StartsWith(s[i..], sub)
    decreases |s|
  {
    assert s[0..] == s;
    if |s| > 0 {
      ContainsAt(s[1..], sub);
      if exists i :: 0 <= i <= |s| - |sub| && StartsWith(s[i..], sub) {
        var i :| 0 <= i <= |s| - |sub| && StartsWith(s[i..], sub);
        if i > 0 {
          assert s[1..][i - 1..] == s[i..];
        }
      }
      if !StartsWith(s, sub) && Contains(s[1..], sub) {
        var i :| 0 <= i <= |s| - 1 - |sub| && StartsWith(s[1..][i..], sub);
        assert s[1..][i..] == s[i + 1..];
      }
    }
  }

  /** The genre keyword as the page reads it (line 77): stripped, then
      lower-cased character by character, so that lower-casing it again
      changes nothing and it still neither starts nor ends with whitespace. */
  function GenreKeyword(input: string): (r: string)
    ensures |r| == |Strip(input)|
    ensures forall i :: 0 <= i < |r| ==> r[i] == LowerChar(Strip(input)[i])
    ensures Lower(r) == r
    ensures Trimmed(r)
  {
    var s := Strip(input);
    LowerIdempotent(s);
    LowerKeepsSpace();
    Lower(s)
  }

  /** Lower-casing neither makes nor removes whitespace. */
  lemma LowerKeepsSpace()
    ensures forall c :: IsSpace(LowerChar(c)) <==> IsSpace(c)
  {
  }

  predicate GenreOk<S(==,!new)>(keyword: string, c: Candidate<S>) {
    keyword == "" || Contains(Lower(c.hit.row.genresStr), keyword)
  }

  /** The genre filter (lines 92-93): skipped for an empty keyword. */
  function GenreFilter<S(==,!new)>(keyword: string, cs: seq<Candidate<S>>): (r: seq<Candidate<S>>)
    ensures keyword == "" ==> r == cs
    ensures forall i :: 0 <= i < |r| ==> r[i] in cs && GenreOk(keyword, r[i])
    ensures forall i :: 0 <= i < |cs| && GenreOk(keyword, cs[i]) ==> cs[i] in r
  {
    if keyword == "" then cs
    else Filter((c: Candidate<S>) => Contains(Lower(c.hit.row.genresStr), keyword), cs)
  }

  /** The three filters in the page's order. */
  function ApplyFilters<S(==,!new)>(choice: string, lo: int, hi: int, keyword: string, cs: seq<Candidate<S>>): (r: seq<Candidate<S>>)
    ensures forall i :: 0 <= i < |r| ==> r[i] in cs && Passes(choice, lo, hi, keyword, r[i])
    ensures forall i :: 0 <= i < |cs| && Passes(choice, lo, hi, keyword, cs[i]) ==> cs[i] in r
  {
    GenreFilter(keyword, YearFilter(lo, hi, SourceFilter(choice, cs)))
  }

  /** What a row must satisfy to survive all three filters. */
  predicate Passes<S(==,!new)>(choice: string, lo: int, hi: int, keyword: string, c: Candidate<S>) {
    SourceOk(choice, c) && YearOk(lo, hi, c) && GenreOk(keyword, c)
  }

  /** Applying the filters one after another is one filter with their
      conjunction: rows are only removed, and the survivors keep their order. */
  lemma FiltersFuse<S(!new)>(choice: string, lo: int, hi: int, keyword: string, cs: seq<Candidate<S>>)
    ensures ApplyFilters(choice, lo, hi, keyword, cs)
         == Filter((c: Candidate<S>) => Passes(choice, lo, hi, keyword, c), cs)
    ensures IsSubseq(ApplyFilters(choice, lo, hi, keyword, cs), cs)
  {
    var src := (c: Candidate<S>) => SourceOk(choice, c);
    var yr := (c: Candidate<S>) => YearOk(lo, hi, c);
    var gn := (c: Candidate<S>) => GenreOk(keyword, c);
    var both := (c: Candidate<S>) => SourceOk(choice, c) && YearOk(lo, hi, c);
    var all := (c: Candidate<S>) => Passes(choice, lo, hi, keyword, c);
    var a := SourceFilter(choice, cs);
    assert a == Filter(src, cs) by {
      if choice == "all" {
        FilterAll(src, cs);
      } else {
        FilterSame(src, (c: Candidate<S>) => c.hit.row.source == choice, cs);
      }
    }
    var b := YearFilter(lo, hi, a);
    assert b == Filter(both, cs) by {
      FilterSame(yr, (c: Candidate<S>) => YearOk(lo, hi, c), a);
      FilterFilter(src, yr, both, cs);
    }
    var g := GenreFilter(keyword, b);
    assert g == Filter(gn, b) by {
      if keyword == "" {
        FilterAll(gn, b);
      } else {
        FilterSame(gn, (c: Candidate<S>) => Contains(Lower(c.hit.row.genresStr), keyword), b);
      }
    }
    FilterFilter(both, gn, all, cs);
    FilterIsSubseq(all, cs);
  }

  // ---------------------------------------------------------------------------
  // Display

  /** A shown result: its rank label and the retrieved row. */
  datatype Shown<S> = Shown(rank: nat, hit: Hit<MetaRow, S>)

  /** `results.head(top_k)`, each labelled `#i+1` from its index label `i`. */
  function Display<S(==,!new)>(topK: nat, cs: seq<Candidate<S>>): (r: seq<Shown<S>>)
    ensures |r| == if |cs| < topK then |cs| else topK
    ensures forall i :: 0 <= i < |r| ==> r[i] == Shown(cs[i].position + 1, cs[i].hit)
  {
    var n := if |cs| < topK then |cs| else topK;
    seq(n, i requires 0 <= i < n => Shown(cs[i].position + 1, cs[i].hit))
  }

  /** The page after a search (lines 83-100): retrieve, number, filter, show. */
  function Results<S(==,!new)>(meta: seq<MetaRow>, scores: seq<S>, ids: seq<int>,
                      choice: string, lo: int, hi: int, genreInput: string, topK: nat): (r: seq<Shown<S>>)
    requires |scores| == |ids|
    requires forall i :: 0 <= i < |ids| ==> 0 <= ids[i] < |meta|
    ensures |r| <= topK && |r| <= |ids|
  {
    var hits := Retrieve(meta, scores, ids);
    var kept := ApplyFilters(choice, lo, hi, GenreKeyword(genreInput), Number(hits));
    FiltersFuse(choice, lo, hi, GenreKeyword(genreInput), Number(hits));
    SubseqLength(kept, Number(hits));
    Display(topK, kept)
  }

  /** Every kept candidate is the retrieved row at its own position. */
  lemma KeptAtPosition<S(!new)>(hits: seq<Hit<MetaRow, S>>, kept: seq<Candidate<S>>)
    requires IsSubseq(kept, Number(hits))
    ensures forall i :: 0 <= i < |kept| ==> kept[i].position < |hits| && kept[i].hit == hits[kept[i].position]
    ensures forall i, j :: 0 <= i < j < |kept| ==> kept[i].position < kept[j].position
  {
    var cs := Number(hits);
    SubseqLength(kept, cs);
    SubseqKeepsOrder((c: Candidate, d: Candidate) => c.position < d.position, kept, cs);
  }

  /** Every shown row is a retrieved row that passed the filters, and its rank
      label is its retrieval position plus one: row `#k` is metadata row
      `ids[k-1]` with score `scores[k-1]`. Ranks increase down the page. */
  lemma ResultsRanks<S(!new)>(meta: seq<MetaRow>, scores: seq<S>, ids: seq<int>,
                     choice: string, lo: int, hi: int, genreInput: string, topK: nat)
    requires |scores| == |ids|
    requires forall i :: 0 <= i < |ids| ==> 0 <= ids[i] < |meta|
    ensures var r := Results(meta, scores, ids, choice, lo, hi, genreInput, topK);
      forall i :: 0 <= i < |r| ==>
        && 1 <= r[i].rank <= |ids|
        && r[i].hit.row == meta[ids[r[i].rank - 1]]
        && r[i].hit.score == scores[r[i].rank - 1]
        && Passes(choice, lo, hi, GenreKeyword(genreInput), Candidate(r[i].rank - 1, r[i].hit))
    ensures var r := Results(meta, scores, ids, choice, lo, hi, genreInput, topK);
      forall i, j :: 0 <= i < j < |r| ==> r[i].rank < r[j].rank
  {
    var hits := Retrieve(meta, scores, ids);
    var kw := GenreKeyword(genreInput);
    var kept := ApplyFilters(choice, lo, hi, kw, Number(hits));
    assert IsSubseq(kept, Number(hits)) by {
      FiltersFuse(choice, lo, hi, kw, Number(hits));
    }
    DisplayRanks(hits, kept, topK);
  }

  /** Shown row `i` is kept candidate `i`, labelled with its retrieval position
      plus one; the labels increase down the page. */
  lemma DisplayRanks<S(!new)>(hits: seq<Hit<MetaRow, S>>, kept: seq<Candidate<S>>, topK: nat)
    requires IsSubseq(kept, Number(hits))
    ensures var r := Display(topK, kept);
      forall i :: 0 <= i < |r| ==>
        && 1 <= r[i].rank <= |hits|
        && r[i].hit == hits[r[i].rank - 1]
        && Candidate(r[i].rank - 1, r[i].hit) == kept[i]
    ensures var r := Display(topK, kept);
      forall i, j :: 0 <= i < j < |r| ==> r[i].rank < r[j].rank
  {
    KeptAtPosition(hits, kept);
  }
}
