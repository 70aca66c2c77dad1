/** The row transform of the Wikipedia movies table (src/preprocess.py), and
    the facts about the labelled search text that both preprocessing scripts
    assemble. */
module Preprocess {
  import opened Seqs
  import opened Text
  import opened PyValues
  import opened PyText

  // ---------------------------------------------------------------------------
  // Rows

  /** One row of the raw Wikipedia table as read from CSV; an empty cell is `None`. */
  datatype RawMovie = RawMovie(
    title: PyValue, year: PyValue, href: PyValue,
    extract: PyValue, genres: PyValue, cast: PyValue)

  /** One row of a processed table: exactly the seven output columns. */
  datatype Movie = Movie(
    title: string, year: PyValue, href: PyValue, extract: string,
    genresStr: string, castStr: string, searchText: string)

  /** `fillna("")` on one cell. */
  function FillNa(v: PyValue): (r: PyValue)
    ensures !r.PNone?
    ensures v.PNone? ==> r == PStr("")
    ensures !v.PNone? ==> r == v
  {
    if v.PNone? then PStr("") else v
  }

  /** A cell sent through `normalize_text` and then `scrub_nan_tokens`. */
  function CleanText(v: PyValue): (r: string)
    ensures IsNormalized(r) && HasNoNanToken(r)
  {
    ScrubNanTokens(PStr(NormalizeText(v)))
  }

  /** A cell sent through `join_list` and then `scrub_nan_tokens`. */
  function CleanList(v: PyValue): (r: string)
    ensures IsNormalized(r) && HasNoNanToken(r)
  {
    ScrubNanTokens(PStr(JoinList(v, ", ")))
  }

  /** Normalising before scrubbing changes nothing: scrubbing normalises anyway. */
  lemma CleanTextIsScrub(v: PyValue)
    ensures CleanText(v) == ScrubNanTokens(v)
  {
    NormalizeTextIdempotent(v);
  }

  /** The length a field adds to the search text: nothing when empty, else
      its characters and one separating space. */
  function Extra(s: string): nat {
    if s == "" then 0 else |s| + 1
  }

  // ---------------------------------------------------------------------------
  // The labelled search text

  /** The Wikipedia search text before scrubbing, concatenated as written. */
  function WikiSearchSource(title: string, extract: string, genres: string, cast: string): string {
    "Title: " + title + " | Plot: " + extract + " | Genres: " + genres + " | Cast: " + cast
  }

  /** A field ready for the search text: normalised and free of `nan` tokens. */
  predicate Ready(s: string) {
    IsNormalized(s) && HasNoNanToken(s)
  }

  /** A text with no `nan` token, no control character and the given fields. */
  predicate Plain(s: string) {
    NoControls(s) && CleanFrom(s, false)
  }

  lemma ReadyIsPlain(s: string)
    requires Ready(s)
    ensures Plain(s)
  {
    CleanMeansNoToken(s);
  }

  /** A separator label ` w1 w2 ` is plain and splits into its two words. */
  lemma Label(l: string, w1: string, w2: string)
    requires l == " " + w1 + " " + w2 + " "
    requires |w1| > 0 && NoControls(w1) && forall j :: 0 <= j < |w1| ==> !IsSpace(w1[j])
    requires |w2| > 0 && NoControls(w2) && forall j :: 0 <= j < |w2| ==> !IsSpace(w2[j])
    requires (forall j :: 0 <= j < |l| ==> l[j] != 'n' && l[j] != 'N')
          || (forall j :: 0 <= j < |l| ==> l[j] != 'a' && l[j] != 'A')
    ensures Plain(l) && Fields(l) == [w1, w2]
  {
    CleanWithoutNanLetter(l, false);
    FieldsOfWord(w1);
    FieldsOfWord(w2);
    NoControlsAppend(" ", w1);
    NoControlsAppend(" " + w1, " ");
    NoControlsAppend(" " + w1 + " ", w2);
    NoControlsAppend(" " + w1 + " " + w2, " ");
    FieldsAppend(" ", w1);
    FieldsAppend(" " + w1, " ");
    FieldsAppend(" " + w1 + " ", w2);
    FieldsAppend(" " + w1 + " " + w2, " ");
  }

  lemma TitleLabel()
    ensures Plain("Title: ") && Fields("Title: ") == ["Title:"]
  {
    TitleLabelPlain();
    TitleLabelFields();
  }

  lemma TitleLabelPlain()
    ensures Plain("Title: ")
  {
    assert "Title: " == "Title:" + " ";
    NoControlsAppend("Title:", " ");
    CleanWithoutN("Title: ", false);
  }

  lemma TitleLabelFields()
    ensures Fields("Title: ") == ["Title:"]
  {
    assert "Title: " == "Title:" + " ";
    FieldsOfWord("Title:");
    FieldsAppend("Title:", " ");
  }

  /** The leading `Title: ` label followed by a ready field. */
  lemma TitleSegment(t: string)
    requires Ready(t)
    ensures Plain("Title: " + t)
    ensures Fields("Title: " + t) == ["Title:"] + Fields(t)
  {
    ReadyIsPlain(t);
    TitleLabel();
    JoinAtSpace("Title: ", t);
  }

  /** Appending a separator label and a ready field to a plain text. */
  lemma Segment(x: string, l: string, w1: string, w2: string, v: string)
    requires Plain(x) && Plain(l) && Fields(l) == [w1, w2]
    requires |l| > 1 && l[0] == ' ' && l[|l| - 1] == ' '
    requires Ready(v)
    ensures Plain(x + l + v)
    ensures Fields(x + l + v) == Fields(x) + [w1, w2] + Fields(v)
  {
    ReadyIsPlain(v);
    JoinAtSpace(x, l);
    assert (x + l)[|x + l| - 1] == ' ';
    JoinAtSpace(x + l, v);
  }

  lemma PlotLabel()
    ensures Plain(" | Plot: ") && Fields(" | Plot: ") == ["|", "Plot:"]
  {
    Label(" | Plot: ", "|", "Plot:");
  }

  lemma GenresLabel()
    ensures Plain(" | Genres: ") && Fields(" | Genres: ") == ["|", "Genres:"]
  {
    Label(" | Genres: ", "|", "Genres:");
  }

  lemma CastLabel()
    ensures Plain(" | Cast: ") && Fields(" | Cast: ") == ["|", "Cast:"]
  {
    Label(" | Cast: ", "|", "Cast:");
  }

  /** Scrubbing a plain text splits it into words and rejoins them with single
      spaces; nothing is deleted. */
  lemma ScrubPlain(s: string)
    requires Plain(s)
    ensures ScrubNanTokens(PStr(s)) == Unwords(Fields(s))
  {
    ReplaceControlsKeeps(s);
    NormalizeIsUnwords(s);
    SqueezeKeepsClean(s);
    CleanMeansNoToken(Squeeze(s));
    ScrubKeepsClean(PStr(s));
  }

  /** The words of the Wikipedia search text: each label's words, then the
      words of its field. */
  function WikiWords(ft: seq<string>, fe: seq<string>, fg: seq<string>, fc: seq<string>): seq<string> {
    ["Title:"] + ft + ["|", "Plot:"] + fe + ["|", "Genres:"] + fg + ["|", "Cast:"] + fc
  }

  /** The Wikipedia search text source is plain and consists of the labels'
      words and each field's words, in order. */
  lemma WikiSourceFields(t: string, e: string, g: string, c: string)
    requires Ready(t) && Ready(e) && Ready(g) && Ready(c)
    ensures Plain(WikiSearchSource(t, e, g, c))
    ensures Fields(WikiSearchSource(t, e, g, c)) == WikiWords(Fields(t), Fields(e), Fields(g), Fields(c))
  {
    TitleSegment(t);
    var x1 := "Title: " + t;
    PlotLabel();
    Segment(x1, " | Plot: ", "|", "Plot:", e);
    var x2 := x1 + " | Plot: " + e;
    GenresLabel();
    Segment(x2, " | Genres: ", "|", "Genres:", g);
    var x3 := x2 + " | Genres: " + g;
    CastLabel();
    Segment(x3, " | Cast: ", "|", "Cast:", c);
  }

  /** Characters plus separators of a word list. */
  function Span(fs: seq<string>): nat {
    TotalLength(fs) + |fs|
  }

  lemma SpanAppend(a: seq<string>, b: seq<string>)
    ensures Span(a + b) == Span(a) + Span(b)
  {
    TotalLengthAppend(a, b);
  }

  lemma SpanOfReady(s: string)
    requires Ready(s)
    ensures Span(Fields(s)) == Extra(s)
  {
    SqueezedLength(s);
  }

  lemma SpanOfLabel(w1: string, w2: string)
    ensures Span([w1, w2]) == |w1| + |w2| + 2
  {
    assert [w1, w2][1..] == [w2];
    assert [w2][1..] == [];
    assert TotalLength([w2]) == |w2|;
    assert TotalLength([w1, w2]) == |w1| + TotalLength([w2]);
  }

  /** Joining a non-empty word list spends its span less one. */
  lemma UnwordsLength(fs: seq<string>)
    requires |fs| > 0
    ensures |Unwords(fs)| == Span(fs) - 1
  {
    JoinLength(fs, " ");
  }

  // ---------------------------------------------------------------------------
  // The row transform and the length filter

  /** The processed row for one raw Wikipedia row (lines 16-35). */
  function CleanMovie(raw: RawMovie): (m: Movie)
    ensures m.year == FillNa(raw.year) && m.href == FillNa(raw.href)
    ensures m.title == ScrubNanTokens(FillNa(raw.title))
    ensures m.extract == ScrubNanTokens(FillNa(raw.extract))
    ensures m.castStr == ScrubNanTokens(PStr(JoinList(FillNa(raw.cast), ", ")))
    ensures m.genresStr == ScrubNanTokens(PStr(JoinList(FillNa(raw.genres), ", ")))
    ensures Ready(m.title) && Ready(m.extract) && Ready(m.genresStr) && Ready(m.castStr)
    ensures m.searchText == ScrubNanTokens(PStr(WikiSearchSource(m.title, m.extract, m.genresStr, m.castStr)))
    ensures IsNormalized(m.searchText) && HasNoNanToken(m.searchText)
  {
    CleanTextIsScrub(FillNa(raw.title));
    CleanTextIsScrub(FillNa(raw.extract));
    var title := CleanText(FillNa(raw.title));
    var extract := CleanText(FillNa(raw.extract));
    var castStr := CleanList(FillNa(raw.cast));
    var genresStr := CleanList(FillNa(raw.genres));
    var searchText := ScrubNanTokens(PStr(WikiSearchSource(title, extract, genresStr, castStr)));
    Movie(title, FillNa(raw.year), FillNa(raw.href), extract, genresStr, castStr, searchText)
  }

  /** What the row transform guarantees about a row: clean fields, and a
      search text that is the scrubbed four-segment concatenation of them. */
  predicate WikiAssembled(m: Movie) {
    && Ready(m.title) && Ready(m.extract) && Ready(m.genresStr) && Ready(m.castStr)
    && m.searchText == ScrubNanTokens(PStr(WikiSearchSource(m.title, m.extract, m.genresStr, m.castStr)))
  }

  lemma CleanMovieAssembled(raw: RawMovie)
    ensures WikiAssembled(CleanMovie(raw))
  {
  }

  /** The search text is the label words and the field words, Title, Plot,
      Genres and Cast in that order, joined by single spaces: scrubbing the
      assembled text deletes nothing, because the fields are already clean. */
  lemma WikiSearchTextWords(m: Movie)
    requires WikiAssembled(m)
    ensures m.searchText == Unwords(WikiWords(Fields(m.title), Fields(m.extract), Fields(m.genresStr), Fields(m.castStr)))
  {
    WikiSourceFields(m.title, m.extract, m.genresStr, m.castStr);
    ScrubPlain(WikiSearchSource(m.title, m.extract, m.genresStr, m.castStr));
  }

  lemma WikiWordsSpan(ft: seq<string>, fe: seq<string>, fg: seq<string>, fc: seq<string>)
    ensures Span(WikiWords(ft, fe, fg, fc)) == 33 + Span(ft) + Span(fe) + Span(fg) + Span(fc)
  {
    SpanOfLabel("|", "Plot:");
    SpanOfLabel("|", "Genres:");
    SpanOfLabel("|", "Cast:");
    assert Span(["Title:"]) == 7 by {
      assert ["Title:"][1..] == [];
    }
    var p1 := ["Title:"] + ft;
    SpanAppend(["Title:"], ft);
    var p2 := p1 + ["|", "Plot:"];
    SpanAppend(p1, ["|", "Plot:"]);
    var p3 := p2 + fe;
    SpanAppend(p2, fe);
    var p4 := p3 + ["|", "Genres:"];
    SpanAppend(p3, ["|", "Genres:"]);
    var p5 := p4 + fg;
    SpanAppend(p4, fg);
    var p6 := p5 + ["|", "Cast:"];
    SpanAppend(p5, ["|", "Cast:"]);
    SpanAppend(p6, fc);
  }

  /** The search text is 32 characters of labels plus, for every non-empty
      field, its length and one space. */
  lemma WikiSearchTextLength(m: Movie)
    requires WikiAssembled(m)
    ensures |m.searchText| == 32 + Extra(m.title) + Extra(m.extract) + Extra(m.genresStr) + Extra(m.castStr)
  {
    WikiSearchTextWords(m);
    WikiWordsLength(m.title, m.extract, m.genresStr, m.castStr);
  }

  /** The length of the labelled words of four clean fields joined by spaces. */
  lemma WikiWordsLength(t: string, e: string, g: string, c: string)
    requires Ready(t) && Ready(e) && Ready(g) && Ready(c)
    ensures |Unwords(WikiWords(Fields(t), Fields(e), Fields(g), Fields(c)))| == 32 + Extra(t) + Extra(e) + Extra(g) + Extra(c)
  {
    var ft, fe, fg, fc := Fields(t), Fields(e), Fields(g), Fields(c);
    assert Span(WikiWords(ft, fe, fg, fc)) == 33 + Extra(t) + Extra(e) + Extra(g) + Extra(c) by {
      WikiWordsSpan(ft, fe, fg, fc);
      SpanOfReady(t);
      SpanOfReady(e);
      SpanOfReady(g);
      SpanOfReady(c);
    }
    UnwordsLength(WikiWords(ft, fe, fg, fc));
  }

  /** With every field empty only the label skeleton remains: the label words
      joined by single spaces, 32 characters, which still passes the length
      filter. */
  lemma WikiSkeleton(m: Movie)
    requires WikiAssembled(m)
    requires m.title == "" && m.extract == "" && m.genresStr == "" && m.castStr == ""
    ensures m.searchText == Unwords(WikiWords([], [], [], []))
    ensures |m.searchText| == 32
  {
    assert Fields("") == [];
    WikiSearchTextWords(m);
    WikiSearchTextLength(m);
  }

  /** Rows whose search text is longer than 30 characters, in order
      (`df[df["search_text"].str.len() > 30]`). */
  function KeepLong(ms: seq<Movie>): (r: seq<Movie>)
    ensures IsSubseq(r, ms)
    ensures forall m :: m in r ==> m in ms && |m.searchText| > 30
    ensures forall i :: 0 <= i < |ms| && |ms[i].searchText| > 30 ==> ms[i] in r
    ensures forall m :: multiset(r)[m] == if |m.searchText| > 30 then multiset(ms)[m] else 0
  {
    FilterIsSubseq((m: Movie) => |m.searchText| > 30, ms);
    Filter((m: Movie) => |m.searchText| > 30, ms)
  }

  /** Every row transformed, in order. */
  function CleanMovies(rows: seq<RawMovie>): (ms: seq<Movie>)
    ensures |ms| == |rows|
    ensures forall i :: 0 <= i < |rows| ==> ms[i] == CleanMovie(rows[i])
  {
    seq(|rows|, i requires 0 <= i < |rows| => CleanMovie(rows[i]))
  }

  /** The whole Wikipedia preprocessing step on a table of raw rows. */
  function PreprocessMovies(rows: seq<RawMovie>): (r: seq<Movie>)
    ensures IsSubseq(r, CleanMovies(rows))
  {
    KeepLong(CleanMovies(rows))
  }

  /** The label skeleton alone is 32 characters, so the length filter never
      drops a Wikipedia row: the output is every input row, transformed, in order. */
  lemma PreprocessKeepsEveryRow(rows: seq<RawMovie>)
    ensures |PreprocessMovies(rows)| == |rows|
    ensures forall i :: 0 <= i < |rows| ==> PreprocessMovies(rows)[i] == CleanMovie(rows[i])
  {
    var ms := CleanMovies(rows);
    forall i | 0 <= i < |ms|
      ensures |ms[i].searchText| > 30
    {
      CleanMovieAssembled(rows[i]);
      WikiSearchTextLength(ms[i]);
    }
    FilterAll((m: Movie) => |m.searchText| > 30, ms);
  }
}
