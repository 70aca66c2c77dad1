/** The row transform of the second movies table (src/preprocess_pablinho.py):
    the same seven output columns as the Wikipedia table, with no link and no
    cast, the genre taken as plain text and a three-segment search text. */
module Pablinho {
  import opened Wrappers
  import opened Seqs
  import opened Text
  import opened PyValues
  import opened PyText
  import opened Preprocess

  /** One raw row. `releaseYear` is the text pandas renders for the year of the
      parsed release date, `None` when the date is missing or unparsable. */
  datatype RawRow = RawRow(title: PyValue, overview: PyValue, genre: PyValue, releaseYear: Option<string>)

  /** The year column: a missing year becomes empty, and so does the text `nan`. */
  function YearText(year: Option<string>): (r: string)
    ensures year.None? ==> r == ""
    ensures year.Some? && year.value != "nan" ==> r == year.value
    ensures r != "nan"
  {
    match year
    case None => ""
    case Some(s) => if s == "nan" then "" else s
  }

  /** The search text before scrubbing, concatenated as written: no Cast segment. */
  function SearchSource(title: string, extract: string, genres: string): string {
    "Title: " + title + " | Plot: " + extract + " | Genres: " + genres
  }

  /** The words of the search text: each label's words, then its field's words. */
  function Words(ft: seq<string>, fe: seq<string>, fg: seq<string>): seq<string> {
    ["Title:"] + ft + ["|", "Plot:"] + fe + ["|", "Genres:"] + fg
  }

  /** The genre cell is converted with `str` and normalised as plain text. */
  function GenreText(genre: PyValue): (r: string)
    ensures Ready(r)
  {
    CleanText(PStr(Str(FillNa(genre))))
  }

  /** The processed row for one raw row (lines 15-36). */
  function CleanRow(raw: RawRow): (m: Movie)
    ensures m.href == PStr("") && m.castStr == ""
    ensures m.year == PStr(YearText(raw.releaseYear))
    ensures m.title == ScrubNanTokens(FillNa(raw.title))
    ensures m.extract == ScrubNanTokens(FillNa(raw.overview))
    ensures m.genresStr == ScrubNanTokens(PStr(Str(FillNa(raw.genre))))
    ensures Ready(m.title) && Ready(m.extract) && Ready(m.genresStr)
    ensures m.searchText == ScrubNanTokens(PStr(SearchSource(m.title, m.extract, m.genresStr)))
    ensures IsNormalized(m.searchText) && HasNoNanToken(m.searchText)
  {
    CleanTextIsScrub(FillNa(raw.title));
    CleanTextIsScrub(FillNa(raw.overview));
    CleanTextIsScrub(PStr(Str(FillNa(raw.genre))));
    var title := CleanText(FillNa(raw.title));
    var extract := CleanText(FillNa(raw.overview));
    var genresStr := GenreText(raw.genre);
    var searchText := ScrubNanTokens(PStr(SearchSource(title, extract, genresStr)));
    Movie(title, PStr(YearText(raw.releaseYear)), PStr(""), extract, genresStr, "", searchText)
  }

  /** The genre is never parsed as a list: a clean genre text, brackets and
      quotes included, is kept exactly as it is. */
  lemma GenreVerbatim(s: string)
    requires Ready(s)
    ensures GenreText(PStr(s)) == s
  {
    NormalizeKeepsNormalized(s);
    ScrubKeepsClean(PStr(s));
  }

  lemma SourceFields(t: string, e: string, g: string)
    requires Ready(t) && Ready(e) && Ready(g)
    ensures Plain(SearchSource(t, e, g))
    ensures Fields(SearchSource(t, e, g)) == Words(Fields(t), Fields(e), Fields(g))
  {
    TitleSegment(t);
    var x1 := "Title: " + t;
    PlotLabel();
    Segment(x1, " | Plot: ", "|", "Plot:", e);
    var x2 := x1 + " | Plot: " + e;
    GenresLabel();
    Segment(x2, " | Genres: ", "|", "Genres:", g);
  }

  /** What the row transform guarantees about a row: clean fields, and a
      search text that is the scrubbed three-segment concatenation of them. */
  predicate Assembled(m: Movie) {
    && Ready(m.title) && Ready(m.extract) && Ready(m.genresStr)
    && m.searchText == ScrubNanTokens(PStr(SearchSource(m.title, m.extract, m.genresStr)))
  }

  lemma CleanRowAssembled(raw: RawRow)
    ensures Assembled(CleanRow(raw))
  {
  }

  /** The search text is the label words and the field words, Title, Plot and
      Genres in that order, joined by single spaces. */
  lemma SearchTextWords(m: Movie)
    requires Assembled(m)
    ensures m.searchText == Unwords(Words(Fields(m.title), Fields(m.extract), Fields(m.genresStr)))
  {
    SourceFields(m.title, m.extract, m.genresStr);
    ScrubPlain(SearchSource(m.title, m.extract, m.genresStr));
  }

  lemma WordsSpan(ft: seq<string>, fe: seq<string>, fg: seq<string>)
    ensures Span(Words(ft, fe, fg)) == 25 + Span(ft) + Span(fe) + Span(fg)
  {
    SpanOfLabel("|", "Plot:");
    SpanOfLabel("|", "Genres:");
    assert Span(["Title:"]) == 7 by {
      assert ["Title:"][1..] == [];
    }
    var p1 := ["Title:"] + ft;
    SpanAppend(["Title:"], ft);
    var p2 := p1 + ["|", "Plot:"];
    SpanAppend(p1, ["|", "Plot:"]);
    var p3 := p2 + fe;
    SpanAppend(p2, fe);
    var p4 := p3 + ["|", "Genres:"];
    SpanAppend(p3, ["|", "Genres:"]);
    SpanAppend(p4, fg);
  }

  /** The search text is 24 characters of labels plus, for every non-empty
      field, its length and one space. */
  lemma SearchTextLength(m: Movie)
    requires Assembled(m)
    ensures |m.searchText| == 24 + Extra(m.title) + Extra(m.extract) + Extra(m.genresStr)
  {
    SearchTextWords(m);
    WordsLength(m.title, m.extract, m.genresStr);
  }

  /** The length of the labelled words of three clean fields joined by spaces. */
  lemma WordsLength(t: string, e: string, g: string)
    requires Ready(t) && Ready(e) && Ready(g)
    ensures |Unwords(Words(Fields(t), Fields(e), Fields(g)))| == 24 + Extra(t) + Extra(e) + Extra(g)
  {
    var ft, fe, fg := Fields(t), Fields(e), Fields(g);
    assert Span(Words(ft, fe, fg)) == 25 + Extra(t) + Extra(e) + Extra(g) by {
      WordsSpan(ft, fe, fg);
      SpanOfReady(t);
      SpanOfReady(e);
      SpanOfReady(g);
    }
    UnwordsLength(Words(ft, fe, fg));
  }

  /** A row survives the length filter exactly when its fields contribute more
      than six characters; the 24-character skeleton of an all-empty row is
      dropped. */
  lemma KeptIff(m: Movie)
    requires Assembled(m)
    ensures |m.searchText| > 30 <==> Extra(m.title) + Extra(m.extract) + Extra(m.genresStr) > 6
    ensures m.title == "" && m.extract == "" && m.genresStr == "" ==> |m.searchText| == 24
  {
    SearchTextLength(m);
    KeptByLength(m);
  }

  /** `KeptIff` for a row whose length formula is already known. */
  lemma KeptByLength(m: Movie)
    requires |m.searchText| == 24 + Extra(m.title) + Extra(m.extract) + Extra(m.genresStr)
    ensures |m.searchText| > 30 <==> Extra(m.title) + Extra(m.extract) + Extra(m.genresStr) > 6
    ensures m.title == "" && m.extract == "" && m.genresStr == "" ==> |m.searchText| == 24
  {
  }

  /** Every row transformed, in order. */
  function CleanRows(rows: seq<RawRow>): (ms: seq<Movie>)
    ensures |ms| == |rows|
    ensures forall i :: 0 <= i < |rows| ==> ms[i] == CleanRow(rows[i])
  {
    seq(|rows|, i requires 0 <= i < |rows| => CleanRow(rows[i]))
  }

  /** The whole preprocessing step: transform every row, then keep the rows
      whose search text is longer than 30 characters, in order. */
  function PreprocessRows(rows: seq<RawRow>): (r: seq<Movie>)
    ensures IsSubseq(r, CleanRows(rows))
    ensures forall m :: m in r ==> m.href == PStr("") && m.castStr == ""
  {
    var ms := CleanRows(rows);
    assert forall m :: m in ms ==> m.href == PStr("") && m.castStr == "";
    KeepLong(ms)
  }

  /** Row `i` reaches the output exactly when its fields contribute more than
      six characters to the search text. */
  lemma PreprocessKeeps(rows: seq<RawRow>, i: nat)
    requires i < |rows|
    ensures var m := CleanRow(rows[i]);
      m in PreprocessRows(rows) <==> Extra(m.title) + Extra(m.extract) + Extra(m.genresStr) > 6
  {
    var ms := CleanRows(rows);
    var m := CleanRow(rows[i]);
    CleanRowAssembled(rows[i]);
    KeptIff(m);
    assert ms[i] == m;
  }

  /** The same rule counted: every transformed row occurs in the output as
      often as in the transformed table when its fields contribute more than
      six characters, and not at all otherwise. */
  lemma {:induction false} PreprocessCounts(rows: seq<RawRow>)
    ensures forall m :: multiset(PreprocessRows(rows))[m]
                     == if Extra(m.title) + Extra(m.extract) + Extra(m.genresStr) > 6 then multiset(CleanRows(rows))[m] else 0
  {
    var ms := CleanRows(rows);
    CleanRowsAssembled(rows);
    forall m
      ensures multiset(KeepLong(ms))[m] == if Extra(m.title) + Extra(m.extract) + Extra(m.genresStr) > 6 then multiset(ms)[m] else 0
    {
      KeptCount(ms, m);
    }
  }

  lemma CleanRowsAssembled(rows: seq<RawRow>)
    ensures forall i :: 0 <= i < |CleanRows(rows)| ==> Assembled(CleanRows(rows)[i])
  {
    forall i | 0 <= i < |rows| ensures Assembled(CleanRow(rows[i])) {
      CleanRowAssembled(rows[i]);
    }
  }

  /** How often one row survives the length filter, for a table of
      assembled rows. */
  lemma KeptCount(ms: seq<Movie>, m: Movie)
    requires forall i :: 0 <= i < |ms| ==> Assembled(ms[i])
    ensures multiset(KeepLong(ms))[m] == if Extra(m.title) + Extra(m.extract) + Extra(m.genresStr) > 6 then multiset(ms)[m] else 0
  {
    if m in ms {
      var i :| 0 <= i < |ms| && ms[i] == m;
      KeptIff(ms[i]);
    }
  }
}
