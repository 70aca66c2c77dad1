# Semantic movie search: a Dafny model of the data pipeline and the search page

This project models the text and table logic of a semantic movie search
engine. It covers:

- **Text cleaning** (`utils/text.py`):
  - `normalize_text` turns control characters into spaces, collapses every
    whitespace run to one space, and strips the ends.
  - `_try_parse_list_string` reads a list written as text back into a list.
    It uses `ast.literal_eval`, modelled by a small literal parser.
  - `join_list` flattens a list-like cell to one string.
  - `scrub_nan_tokens` deletes every whole-word `nan`, in any letter case.
- **Preprocessing of the Wikipedia table** (`src/preprocess.py`):
  - every cell is filled, cleaned and scrubbed;
  - the labelled search text `Title: … | Plot: … | Genres: … | Cast: …` is built;
  - rows whose search text has 30 characters or fewer are removed.
- **Preprocessing of the second movies table** (`src/preprocess_pablinho.py`):
  the same row transform, with no link, no cast, and a three-segment search
  text.
- **Merging** (`src/merge_datasets.py`): each table is tagged with its source,
  the Wikipedia table comes first, and later rows whose search text was
  already seen are dropped.
- **Search result assembly** (`src/search.py`):
  - the nearest-neighbour index's answer (scores and row positions) is joined
    to the metadata;
  - `snippet` shortens a plot text.
- **The search page** (`web_app/app.py`):
  - the sidebar's source options and year bounds;
  - the source, year and genre filters, applied after retrieval;
  - the `#rank` label of each shown row.

Python values are a datatype (`PyValues.PyValue`) with `str()` and `repr()`.
Strings are `seq<char>`, and whitespace is the set `str.isspace()` accepts.

Main results:
- `literal_eval(repr(v)) == v` (`Literal.LiteralEvalRepr`).
- Normalising and scrubbing are idempotent.
- Scrubbing a cleaned field changes it exactly when it holds a `nan` token.
- The search text is the label words and each field's words, joined by single
  spaces, and its exact length is known.
- Merging keeps exactly the first row of every search text, and Wikipedia
  rows win.
- Each shown row `#k` is the `k`-th retrieved row, and it passed every filter.

The code and its own comment disagree in one place. The comment at
`src/preprocess.py:37` says the 30-character filter removes "too-empty"
rows. The labels alone, however, already make 32 characters, so the filter
never drops a Wikipedia row (`Preprocess.PreprocessKeepsEveryRow`). The same
filter does drop rows of the second table, whose labels make 24 characters
(`Pablinho.KeptIff`). The model follows the code.

## Model

| member | source | states |
|---|---|---|
| Text.ReplaceControls | utils/text.py:15 | position by position, a character in `\x00-\x1f` or `\x7f` becomes a space and every other character is kept, so the length is kept and no control character remains |
| Text.Strip | utils/text.py:16 | the result has no whitespace at either end |
| Text.StripIsSlice | utils/text.py:16 | `strip()` is the middle slice of the input: everything cut off before and after it is whitespace |
| Text.StripKeepsTrimmed | utils/text.py:16 | a string without surrounding whitespace is its own `strip()` |
| Text.Collapse | utils/text.py:16 | after `\s+` → space, only plain single spaces remain; it is empty iff the input is, starts with whitespace iff the input does, and adds no control characters |
| Text.Squeeze | utils/text.py:16 | collapse-then-strip output holds only single plain spaces, none at the ends |
| Text.Normalize | utils/text.py:15-16 | the output is control-free, single-spaced and stripped |
| Text.NormalizeKeepsNormalized | utils/text.py:15-16 | normalised text is a fixed point |
| Text.NormalizeIdempotent | utils/text.py:15-16 | normalising twice equals normalising once |
| Text.NormalizeIsUnwords | utils/text.py:15-16 | normalising equals `" ".join(s.split())` after control characters became spaces (an independent reference definition) |
| Text.RemoveNanFrom | utils/text.py:58 | removing `\bNaN\b` case-insensitively never lengthens the text and never introduces control characters |
| Text.RemoveNanLeavesClean | utils/text.py:58 | after the removal no whole-word `nan` is left |
| Text.RemoveNanKeepsClean | utils/text.py:58 | text without a `nan` token is left unchanged |
| Text.RemoveNanIsUncovered | utils/text.py:54-58 | scanning from any position that no token straddles keeps exactly the characters from there on that no whole-word `nan` covers, in order |
| Text.RemoveNanDeletesTokens | utils/text.py:54-58 | the removal deletes exactly the characters some whole-word `nan` covers and keeps every other character in order, so a word such as `Nana` is kept whole |
| Text.CleanMeansNoToken | utils/text.py:58 | the left-to-right scan finds no token iff no position holds a word-bounded, case-insensitive `nan` |
| Text.SqueezeKeepsClean | utils/text.py:59 | re-squeezing whitespace after the removal cannot create a new `nan` token |
| PyText.NormalizeText | utils/text.py:11-17 | `None` gives the empty string; any result is normalised |
| PyText.NormalizeTextIsUnwords | utils/text.py:14-16 | a string normalises to its whitespace-separated fields joined by single spaces |
| PyText.NormalizeTextIdempotent | utils/text.py:11-17 | `normalize_text(normalize_text(v)) == normalize_text(v)` |
| PyText.TryParseListString | utils/text.py:20-31 | text that is not bracketed after stripping comes back unchanged; bracketed text gives the literal value of the stripped text when it parses, and the original text when it does not |
| PyText.TryParseListRepr | utils/text.py:25-28 | the `repr` of a list of supported literals is parsed back into that list |
| PyText.ParseCell | utils/text.py:39-40 | a value that is not a string, or a string that is not bracketed after stripping, passes through unchanged; a bracketed string becomes the value `literal_eval` gives for its stripped text, or stays the string when evaluation fails |
| PyText.NonNone | utils/text.py:43 | an order-preserving selection of the items holding every item that is not `None` exactly as often as the input does, and no `None` |
| PyText.NormalizeEach | utils/text.py:43 | each item is normalised, one output per input |
| PyText.JoinScalar | utils/text.py:45-49 | a non-list value yields its `normalize_text`, except that `[]` and the empty text become the empty string |
| PyText.JoinParsed | utils/text.py:42-49 | after parsing, a non-list value yields its `normalize_text`, except that `[]` and the empty text become the empty string |
| PyText.JoinList | utils/text.py:34-49 | `None` gives the empty string; a value that is a list after parsing gives its normalised non-`None` items joined by `sep`; any other parsed value gives its `normalize_text`, with `[]` and the empty text becoming the empty string |
| PyText.JoinListOfList | utils/text.py:42-43 | a list yields its normalised non-`None` items joined by `sep`: empty when there are none, otherwise parts plus separators in length |
| PyText.JoinListOfScalar | utils/text.py:45-49 | a non-list value is normalised; `[]` and the empty string become empty, anything else is kept |
| PyText.JoinListOfListText | utils/text.py:38-43 | the text form of a list, as a CSV cell holds it, is joined item by item (`"['A', 'B']"` gives `A, B`) |
| PyText.JoinListOfTupleText | utils/text.py:38-49 | the text form of a tuple is parsed into the tuple, which is not a list, so it is rendered whole by `normalize_text` (`"('a', 'b')"` gives `('a', 'b')`) |
| PyText.JoinListKeepsPlainText | utils/text.py:39-49 | normalised text that is not bracketed passes through unchanged |
| PyText.ScrubNanTokens | utils/text.py:51-60 | the result is normalised, holds no whole-word `nan`, and is no longer than the normalised input |
| PyText.ScrubKeepsUncovered | utils/text.py:51-60 | scrubbing keeps every character of the normalised text that no whole-word `nan` covers, in order, and squeezes the whitespace between them |
| PyText.ScrubKeepsClean | utils/text.py:56-60 | normalised text without a `nan` token is returned as it is |
| PyText.ScrubFixedPoint | utils/text.py:56-60 | normalised text without a `nan` token is a fixed point of scrubbing |
| PyText.ScrubIdempotent | utils/text.py:51-60 | scrubbing twice equals scrubbing once |
| PyText.ScrubChangesIffToken | utils/text.py:56-60 | scrubbing changes the normalised text iff that text holds a `nan` token |
| PyValues.Repr | utils/text.py:14 | `None`, `True`, `False` and integers print as their names and digits; a string is enclosed in the quote `repr` picks, a list in brackets, a tuple in parentheses with a trailing comma when it has one item |
| PyValues.Str | utils/text.py:14 | `str` of a string is the string itself; of any other value, its `repr` |
| PyValues.DecimalDigits | utils/text.py:14 | `str(n)` is a non-empty run of decimal digits, with no leading zero except for 0 itself |
| Literal.EscapeBodyRoundTrip | utils/text.py:28 | the escaped body of a `repr`'d string is read back to the original characters, stopping at the closing quote |
| Literal.StrReprRoundTrip | utils/text.py:28 | a `repr`'d string parses back to the same string |
| Literal.IntRoundTrip | utils/text.py:28 | `str(i)` of any integer, negatives included, parses back to `i` |
| Literal.NameRoundTrip | utils/text.py:28 | `None`, `True` and `False` parse to their values |
| Literal.ItemsRoundTrip | utils/text.py:28 | the items of a `repr`'d list or tuple are read back in order, up to the closing bracket |
| Literal.ListRoundTrip | utils/text.py:28 | a `repr`'d list parses back to the same list |
| Literal.TupleRoundTrip | utils/text.py:28 | a `repr`'d tuple, the one-item `(x,)` form included, parses back to the same tuple |
| Literal.ReprRoundTrip | utils/text.py:28 | every supported literal value followed by a delimiter parses back to itself |
| Literal.LiteralEval | utils/text.py:28 | every value it returns is one of the supported literal forms, so `repr` can write it back |
| Literal.LiteralEvalRepr | utils/text.py:28 | `literal_eval(repr(v)) == v` on the whole input |
| Literal.TopLevelLineBreak | utils/text.py:28 | a line break after a complete value outside any bracket, as in `(1),\n(2)`, makes the parse fail |
| Literal.NulInString | utils/text.py:28 | a NUL character inside a string literal makes the parse fail |
| Literal.BackslashCarriageReturn | utils/text.py:28 | a backslash before CR LF or a lone CR continues the string on the next line and adds no character |
| Preprocess.FillNa | src/preprocess.py:16 | a missing cell becomes the empty string, and a present cell is kept |
| Preprocess.CleanText | src/preprocess.py:19-20 | a cleaned text cell is normalised and free of `nan` tokens |
| Preprocess.CleanTextIsScrub | src/preprocess.py:19-20 | normalising before scrubbing changes nothing, because scrubbing normalises |
| Preprocess.CleanList | src/preprocess.py:23-24 | a cleaned list cell is normalised and free of `nan` tokens |
| Preprocess.CleanMovie | src/preprocess.py:16-35 | year and link are the filled raw cells; title and plot are the scrubbed filled cells, genres and cast the scrubbed `join_list` of the filled cells; every field is clean; the search text is the scrub of the labelled concatenation of the fields |
| Preprocess.CleanMovieAssembled | src/preprocess.py:19-32 | every transformed row has clean fields, and its search text is the scrub of their labelled concatenation |
| Preprocess.WikiSourceFields | src/preprocess.py:27-31 | the concatenated search text has no control characters and no `nan` token, and its words are the label words and each field's words, in order |
| Preprocess.WikiSearchTextWords | src/preprocess.py:27-32 | for a row assembled that way, the final scrub deletes nothing: the search text is exactly the label words and the field words joined by single spaces |
| Preprocess.WikiSearchTextLength | src/preprocess.py:27-32 | for an assembled row, the search text has 32 label characters plus, for each non-empty field, its length and one space |
| Preprocess.WikiSkeleton | src/preprocess.py:27-32 | for an assembled row with all fields empty, only the 32-character label skeleton remains |
| Preprocess.KeepLong | src/preprocess.py:38 | an order-preserving selection in which every row whose search text is longer than 30 characters occurs as often as in the input, and no other row occurs |
| Preprocess.CleanMovies | src/preprocess.py:19-35 | row `i` of the output is the transform of raw row `i` |
| Preprocess.PreprocessMovies | src/preprocess.py:15-38 | the output is an order-preserving selection of the transformed rows |
| Preprocess.PreprocessKeepsEveryRow | src/preprocess.py:37-38 | the length filter removes no row: the output is every raw row, transformed, in order |
| Pablinho.YearText | src/preprocess_pablinho.py:24-25 | a missing year and the text `nan` both become empty; any other year text is kept |
| Pablinho.GenreText | src/preprocess_pablinho.py:20 | the genre cell becomes clean text |
| Pablinho.GenreVerbatim | src/preprocess_pablinho.py:20 | the genre is never parsed as a list: clean genre text, brackets included, is kept as it is |
| Pablinho.CleanRow | src/preprocess_pablinho.py:15-36 | link and cast are empty; the year follows the year rule; title, plot and genre are the scrubbed filled cells (the genre through `str`); every field is clean; the search text is the scrub of the three-segment concatenation of the fields |
| Pablinho.CleanRowAssembled | src/preprocess_pablinho.py:19-36 | every transformed row has clean fields, and its search text is the scrub of their three-segment concatenation |
| Pablinho.SourceFields | src/preprocess_pablinho.py:32-35 | the three-segment text is control-free and `nan`-free, and its words are the label words and the field words |
| Pablinho.SearchTextWords | src/preprocess_pablinho.py:32-36 | for a row assembled that way, the search text is Title, Plot and Genres words joined by single spaces, with no Cast segment |
| Pablinho.SearchTextLength | src/preprocess_pablinho.py:32-36 | for an assembled row, the search text has 24 label characters plus, for each non-empty field, its length and one space |
| Pablinho.KeptIff | src/preprocess_pablinho.py:32-39 | an assembled row passes the length filter iff its fields contribute more than six characters; an all-empty row has 24 characters |
| Pablinho.CleanRows | src/preprocess_pablinho.py:15-36 | row `i` of the output is the transform of raw row `i` |
| Pablinho.PreprocessRows | src/preprocess_pablinho.py:15-39 | the output is an order-preserving selection of the transformed rows, all without link or cast |
| Pablinho.PreprocessKeeps | src/preprocess_pablinho.py:39 | raw row `i`, transformed, reaches the output iff its fields contribute more than six characters |
| Pablinho.PreprocessCounts | src/preprocess_pablinho.py:32-39 | a transformed row occurs in the output as often as among the transformed rows when its fields contribute more than six characters, and not at all otherwise |
| Merge.Tag | src/merge_datasets.py:17-18 | a tagged row carries the given source, and removing the tag gives back the row |
| Merge.TagAll | src/merge_datasets.py:17-18 | every row of a table is tagged, in order |
| Merge.FirstWithKey | src/merge_datasets.py:28 | the first row with a search text is a row of the table carrying that text |
| Merge.DedupFrom | src/merge_datasets.py:28 | keep-first de-duplication never lengthens the table |
| Merge.DedupIsSubseq | src/merge_datasets.py:28 | de-duplication keeps an order-preserving selection of the rows |
| Merge.DedupKeys | src/merge_datasets.py:28 | the kept rows carry exactly the search texts of the table that were not already seen |
| Merge.DedupDistinct | src/merge_datasets.py:28 | no two kept rows share a search text |
| Merge.DedupFirst | src/merge_datasets.py:28 | every kept row is a row of the table with a text not already seen, and it is the first row with that text |
| Merge.DedupKeepsFirst | src/merge_datasets.py:28 | the first row of every search text is kept |
| Merge.DedupAppend | src/merge_datasets.py:25-28 | de-duplicating a concatenation de-duplicates the first part, then the second part against the first part's texts |
| Merge.MergeTables | src/merge_datasets.py:13-28 | the master table is an order-preserving selection of the tagged Wikipedia rows followed by the tagged second-table rows, no longer than both, with distinct search texts |
| Merge.MergeCovers | src/merge_datasets.py:25-28 | every search text of either table reaches the master table |
| Merge.FirstWithKeyAppend | src/merge_datasets.py:25-28 | appending a table does not change which row comes first for a search text already present |
| Merge.WikipediaWins | src/merge_datasets.py:25-28 | for a search text in the Wikipedia table, the master row is that table's first row with it |
| Merge.MergeSplit | src/merge_datasets.py:25-28 | the master table is the de-duplicated Wikipedia rows followed by the second table's rows whose text is new |
| Merge.MergeOrder | src/merge_datasets.py:25-28 | no Wikipedia row follows a row of the second table |
| Search.Retrieve | src/search.py:21-27 | result `i` is metadata row `ids[i]` with score `scores[i]`; one result per id |
| Search.RetrievePrefix | src/search.py:23-27 | retrieval neither filters nor reorders: a shorter id list gives a prefix of the answer |
| Search.ReplaceNewlines | src/search.py:31 | every newline becomes a space; nothing else changes |
| Search.PrefixSlice | src/search.py:32 | Python's `t[:m]` is a prefix of `t`: `m` characters for `0 <= m <= len(t)`, `len(t)+m` (at least 0) for negative `m` |
| Search.SnippetSource | src/search.py:31 | the text a snippet is cut from has no newline and no surrounding whitespace |
| Search.Snippet | src/search.py:30-32 | the snippet has no newline; text that fits is returned whole; longer text becomes exactly `n` characters, its first `n-3` then `...` |
| Search.SnippetIdempotent | src/search.py:30-32 | a snippet is at most `n` long, and the snippet of a snippet is the snippet |
| App.StrLtIrreflexive | web_app/app.py:70 | Python string order is irreflexive |
| App.StrLtTransitive | web_app/app.py:70 | Python string order is transitive |
| App.StrLtTotal | web_app/app.py:70 | any two different strings are ordered one way or the other |
| App.Insert | web_app/app.py:70 | inserting into a strictly sorted list keeps it strictly sorted and adds exactly the new element |
| App.SortedDistinct | web_app/app.py:70 | `sorted(set(values))` is strictly increasing and holds exactly the values |
| App.NonBlankSources | web_app/app.py:70 | exactly the source values that are not blank after `strip()` |
| App.SourceOptions | web_app/app.py:70 | the options are `all`, then every distinct non-blank source exactly once, in increasing order |
| App.KnownYears | web_app/app.py:73-74 | exactly the years that are known |
| App.Min | web_app/app.py:73 | the minimum is one of the values and no value is smaller |
| App.Max | web_app/app.py:74 | the maximum is one of the values and no value is larger |
| App.YearBounds | web_app/app.py:73-74 | with known years the bounds are the smallest and the largest of them; otherwise 1900 and 2026 |
| App.Number | web_app/app.py:58 | the retrieved rows are labelled `0..k-1` in retrieval order |
| App.SourceFilter | web_app/app.py:86-87 | `all` keeps everything; otherwise exactly the rows of the chosen source are kept |
| App.YearFilter | web_app/app.py:89-90 | exactly the rows with no year or a year in the inclusive range are kept |
| App.LowerChar | web_app/app.py:77 | an ASCII capital becomes its lower-case letter; characters outside the capital ranges are kept |
| App.Lower | web_app/app.py:77 | lower-casing maps each character through `LowerChar`, position by position |
| App.LowerIdempotent | web_app/app.py:77 | lower-casing twice equals lower-casing once |
| App.GenreKeyword | web_app/app.py:77 | the keyword is the stripped input lower-cased character by character; it is its own lower case and has no whitespace at either end |
| App.ContainsAt | web_app/app.py:93 | `sub in s` iff `sub` occurs at some position of `s` |
| App.GenreFilter | web_app/app.py:92-93 | an empty keyword keeps everything; otherwise exactly the rows whose lower-cased genres contain the keyword are kept |
| App.ApplyFilters | web_app/app.py:85-93 | a row survives iff it passes the source, year and genre tests |
| App.FiltersFuse | web_app/app.py:85-93 | the three filters in sequence equal one filter with their conjunction, and the survivors keep their order |
| App.Display | web_app/app.py:98-100 | the first `top_k` surviving rows are shown, in order, each labelled with its retrieval position plus one |
| App.Results | web_app/app.py:83-100 | at most `top_k` rows are shown, and never more than were retrieved |
| App.KeptAtPosition | web_app/app.py:98-100 | every surviving row is the retrieved row at its own label, and labels increase down the table |
| App.DisplayRanks | web_app/app.py:98-100 | shown row `i` carries a rank between 1 and the number retrieved, it is the retrieved row at that rank, it is the `i`-th survivor, and ranks increase down the table |
| App.ResultsRanks | web_app/app.py:98-100 | shown row `#k` is metadata row `ids[k-1]` with score `scores[k-1]` and passed every filter; ranks increase down the page |

The snippet width is 180 in `src/search.py` and 240 in `web_app/app.py`
(`Search.SearchSnippetWidth`, `Search.AppSnippetWidth`). The function itself
is the same in both files.

## Left out

- File and network I/O, the console and Streamlit output, the page layout,
  the query box and the Search button. Reading and writing CSV and parquet
  is left out too, so the type inference pandas applies when a written table
  is read back is not modelled. One consequence, for empty genre cells, is
  stated under App.GenreFilter below.
- The sentence embedding model and the FAISS index are outside the model.
  A search's answer enters as the `scores` and `ids` parameters.
- Search.Retrieve: requires every id to be a valid row position. FAISS pads
  its answer with `-1` when the index holds fewer than `top_k` vectors, and
  `iloc` would then read the last row; that case is not modelled.
- pandas coercions are taken as inputs:
  - `pd.to_numeric` gives `MetaRow.yearNum`.
  - `pd.to_datetime(...).dt.year` gives `Pablinho.RawRow.releaseYear`, as the
    text the year column renders.
- Literal.LiteralEval: supports only the literal forms the list-like cells
  use:
  - plain and `u`-prefixed string literals;
  - decimal integers without underscores;
  - `None`, `True` and `False`;
  - lists, tuples and parentheses.

  Other forms fail, where Python would accept them:
  - floats, complex numbers such as `1j`, bytes, dicts and sets;
  - integers written with underscores such as `1_000`, and hexadecimal,
    octal and binary integers such as `0x1F`;
  - triple-quoted, raw and byte strings, and `\N{…}` escapes;
  - escapes of a lone surrogate such as `\ud800`, because a Dafny `char`
    cannot hold one;
  - comments, and a backslash that joins lines outside a string;
  - line breaks before or after the whole value at the top level. The
    caller strips its input first, so none reach the parser;
  - the ellipsis `...`, so `join_list("[...]")` keeps the text `[...]`
    where Python gives `Ellipsis`;
  - a sign before anything but digits, such as `-(1)` or `--1`, which
    Python folds to `-1` and `1`; the model reads one sign, then digits.

  Some inputs parse here although CPython refuses them:
  - brackets nested more than 200 deep, which CPython's tokenizer rejects
    as too deeply nested; the model has no depth bound;
  - integer literals of more than 4300 digits, which CPython 3.11 and
    later reject by its integer string conversion limit; the model reads
    integers of any length.

  On such inputs `_try_parse_list_string` returns the original text in
  Python but a parsed value here.
- PyValues.Repr: characters outside Latin-1 that Python treats as
  non-printable are written as they are rather than escaped.
- Text.IsWordChar: approximates `\w` above U+00FF. It treats any character
  that is not whitespace and not punctuation from U+2000-U+2BFF or
  U+3000-U+303F as a word character.
- App.LowerChar: lower-cases ASCII and Latin-1 capitals only. Other
  characters that Python's `str.lower` would change are kept.
- App.GenreFilter: tests for a plain substring. pandas' `str.contains`
  treats the keyword as a regular expression, so keywords holding regex
  metacharacters behave differently.
- App.YearBounds: uses integer years. The source takes `int()` of a float
  minimum and maximum, which truncates.
- Search.Snippet: states nothing about widths below 3. The body still follows
  Python's negative slicing there.
- App.GenreFilter: treats every genre cell as the string the preprocessing
  wrote, so `astype(str)` is the identity here. The metadata the app loads
  was written by `src/embed.py:22` and `src/embed.py:42` (`read_csv`, then
  `to_parquet`) without a `fillna`. An empty genre cell is therefore missing
  when `web_app/app.py:37` reads it back. `astype(str)` at
  `web_app/app.py:93` turns it into `"None"` or `"nan"`, so a keyword such as
  `"on"`, `"no"` or `"n"` keeps those rows in the app, while the model drops
  them. The `na=False` argument never applies after `astype(str)`.
- The `fillna("")` of the merge step and the second `fillna("")` of
  `src/preprocess.py`. Every cell the model carries is already filled, so
  they change nothing.
