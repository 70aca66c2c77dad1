/** Merging the two processed tables into the master table
    (src/merge_datasets.py): tag each row with its source, concatenate, and
    drop later rows whose search text was already seen. */
module Merge {
  import opened Seqs
  import opened PyValues
  import opened Preprocess

  /** One row of the master table: the seven processed columns and the source. */
  datatype Row = Row(
    title: string, year: PyValue, href: PyValue, extract: string,
    genresStr: string, castStr: string, searchText: string, source: string)

  const WikipediaSource := "wikipedia"
  const PablinhoSource := "pablinho"

  /** A master row without its source column. */
  function Untag(r: Row): Movie {
    Movie(r.title, r.year, r.href, r.extract, r.genresStr, r.castStr, r.searchText)
  }

  /** A processed row with its source column added: removing the column again
      gives back the row. */
  function Tag(m: Movie, source: string): (r: Row)
    ensures r.source == source && Untag(r) == m
  {
    Row(m.title, m.year, m.href, m.extract, m.genresStr, m.castStr, m.searchText, source)
  }

  /** `df["source"] = source` on a whole table. */
  function TagAll(ms: seq<Movie>, source: string): (r: seq<Row>)
    ensures |r| == |ms|
    ensures forall i :: 0 <= i < |ms| ==> r[i] == Tag(ms[i], source)
  {
    seq(|ms|, i requires 0 <= i < |ms| => Tag(ms[i], source))
  }

  /** The search texts occurring in a table. */
  function Keys(rows: seq<Row>): set<string> {
    set r | r in rows :: r.searchText
  }

  lemma KeysCons(rows: seq<Row>)
    requires |rows| > 0
    ensures Keys(rows) == {rows[0].searchText} + Keys(rows[1..])
  {
    assert forall r :: r in rows <==> r == rows[0] || r in rows[1..];
  }

  lemma KeysAppend(a: seq<Row>, b: seq<Row>)
    ensures Keys(a + b) == Keys(a) + Keys(b)
  {
    assert forall r :: r in a + b <==> r in a || r in b;
  }

  /** No two rows share a search text. */
  predicate DistinctKeys(rows: seq<Row>) {
    forall i, j :: 0 <= i < j < |rows| ==> rows[i].searchText != rows[j].searchText
  }

  /** The first row carrying search text `k`. */
  function FirstWithKey(rows: seq<Row>, k: string): (r: Row)
    requires k in Keys(rows)
    ensures r in rows && r.searchText == k
    decreases |rows|
  {
    KeysCons(rows);
    if rows[0].searchText == k then rows[0] else FirstWithKey(rows[1..], k)
  }

  /** `drop_duplicates(subset=["search_text"])` with the default keep-first:
      `seen` holds the search texts of the rows already kept. */
  function DedupFrom(rows: seq<Row>, seen: set<string>): (r: seq<Row>)
    ensures |r| <= |rows|
    decreases |rows|
  {
    if |rows| == 0 then []
    else if rows[0].searchText in seen then DedupFrom(rows[1..], seen)
    else [rows[0]] + DedupFrom(rows[1..], seen + {rows[0].searchText})
  }

  /** The kept rows appear in the input, in the input's order. */
  lemma {:induction false} DedupIsSubseq(rows: seq<Row>, seen: set<string>)
    ensures IsSubseq(DedupFrom(rows, seen), rows)
    decreases |rows|
  {
    if |rows| > 0 {
      var x := rows[0];
      if x.searchText in seen {
        DedupIsSubseq(rows[1..], seen);
        SubseqSkip(DedupFrom(rows[1..], seen), rows);
      } else {
        DedupIsSubseq(rows[1..], seen + {x.searchText});
        assert DedupFrom(rows, seen)[1..] == DedupFrom(rows[1..], seen + {x.searchText});
      }
    }
  }

  /** The kept rows carry every search text of the input that was not seen
      before, and no other. */
  lemma {:induction false} DedupKeys(rows: seq<Row>, seen: set<string>)
    ensures Keys(DedupFrom(rows, seen)) == Keys(rows) - seen
    decreases |rows|
  {
    if |rows| > 0 {
      var x := rows[0];
      KeysCons(rows);
      if x.searchText in seen {
        DedupKeys(rows[1..], seen);
      } else {
        var rest := DedupFrom(rows[1..], seen + {x.searchText});
        DedupKeys(rows[1..], seen + {x.searchText});
        var r := DedupFrom(rows, seen);
        assert r[1..] == rest;
        KeysCons(r);
      }
    }
  }

  /** No two kept rows share a search text. */
  lemma {:induction false} DedupDistinct(rows: seq<Row>, seen: set<string>)
    ensures DistinctKeys(DedupFrom(rows, seen))
    decreases |rows|
  {
    if |rows| > 0 {
      var x := rows[0];
      if x.searchText in seen {
        DedupDistinct(rows[1..], seen);
      } else {
        var rest := DedupFrom(rows[1..], seen + {x.searchText});
        DedupDistinct(rows[1..], seen + {x.searchText});
        DedupKeys(rows[1..], seen + {x.searchText});
        var r := DedupFrom(rows, seen);
        assert r == [x] + rest;
        forall j | 1 <= j < |r|
          ensures r[0].searchText != r[j].searchText
        {
          assert r[j] == rest[j - 1] && r[j] in rest;
        }
        forall i, j | 1 <= i < j < |r|
          ensures r[i].searchText != r[j].searchText
        {
          assert r[i] == rest[i - 1] && r[j] == rest[j - 1];
        }
      }
    }
  }

  /** Every kept row is the first input row with its search text, and that
      search text was not seen before. */
  lemma {:induction false} DedupFirst(rows: seq<Row>, seen: set<string>)
    ensures forall y :: y in DedupFrom(rows, seen) ==>
      y in rows && y.searchText !in seen && y == FirstWithKey(rows, y.searchText)
    decreases |rows|
  {
    if |rows| > 0 {
      var x := rows[0];
      KeysCons(rows);
      var seen' := if x.searchText in seen then seen else seen + {x.searchText};
      var rest := DedupFrom(rows[1..], seen');
      DedupFirst(rows[1..], seen');
      forall y | y in DedupFrom(rows, seen)
        ensures y in rows && y.searchText !in seen && y == FirstWithKey(rows, y.searchText)
      {
        if y != x || x.searchText in seen {
          assert y in rest;
          assert y.searchText != x.searchText;
        }
      }
    }
  }

  /** Every search text keeps exactly the first row that carried it. */
  lemma DedupKeepsFirst(rows: seq<Row>, k: string)
    requires k in Keys(rows)
    ensures FirstWithKey(rows, k) in DedupFrom(rows, {})
  {
    var r := DedupFrom(rows, {});
    DedupKeys(rows, {});
    DedupFirst(rows, {});
    assert k in Keys(r);
    var y :| y in r && y.searchText == k;
  }

  /** De-duplicating a concatenation de-duplicates the first part, then the
      second part against everything the first part already holds. */
  lemma {:induction false} DedupAppend(a: seq<Row>, b: seq<Row>, seen: set<string>)
    ensures DedupFrom(a + b, seen) == DedupFrom(a, seen) + DedupFrom(b, seen + Keys(a))
    decreases |a|
  {
    if |a| == 0 {
      assert a + b == b;
      assert seen + Keys(a) == seen;
    } else {
      var x := a[0];
      var seen' := if x.searchText in seen then seen else seen + {x.searchText};
      assert seen' + Keys(a[1..]) == seen + Keys(a) by {
        KeysCons(a);
      }
      assert DedupFrom(a + b, seen) == (if x.searchText in seen then [] else [x]) + DedupFrom(a[1..] + b, seen') by {
        assert (a + b)[0] == x;
        assert (a + b)[1..] == a[1..] + b;
      }
      DedupAppend(a[1..], b, seen');
    }
  }

  /** The master table (lines 13-28). */
  function MergeTables(wiki: seq<Movie>, pablinho: seq<Movie>): (r: seq<Row>)
    ensures IsSubseq(r, TagAll(wiki, WikipediaSource) + TagAll(pablinho, PablinhoSource))
    ensures |r| <= |wiki| + |pablinho|
    ensures DistinctKeys(r)
  {
    var rows := TagAll(wiki, WikipediaSource) + TagAll(pablinho, PablinhoSource);
    DedupIsSubseq(rows, {});
    DedupDistinct(rows, {});
    DedupFrom(rows, {})
  }

  /** Every search text of either table reaches the master table. */
  lemma MergeCovers(wiki: seq<Movie>, pablinho: seq<Movie>)
    ensures Keys(MergeTables(wiki, pablinho))
         == Keys(TagAll(wiki, WikipediaSource)) + Keys(TagAll(pablinho, PablinhoSource))
  {
    var rows := TagAll(wiki, WikipediaSource) + TagAll(pablinho, PablinhoSource);
    KeysAppend(TagAll(wiki, WikipediaSource), TagAll(pablinho, PablinhoSource));
    DedupKeys(rows, {});
  }

  lemma {:induction false} FirstWithKeyAppend(a: seq<Row>, b: seq<Row>, k: string)
    requires k in Keys(a)
    ensures k in Keys(a + b) && FirstWithKey(a + b, k) == FirstWithKey(a, k)
    decreases |a|
  {
    KeysAppend(a, b);
    KeysCons(a);
    KeysCons(a + b);
    assert (a + b)[0] == a[0];
    assert (a + b)[1..] == a[1..] + b;
    if a[0].searchText != k {
      FirstWithKeyAppend(a[1..], b, k);
    }
  }

  /** A Wikipedia row beats a later row of the second table with the same
      search text: every master row whose search text occurs in the Wikipedia
      table is that table's first row with it. */
  lemma WikipediaWins(wiki: seq<Movie>, pablinho: seq<Movie>)
    ensures var w := TagAll(wiki, WikipediaSource);
      forall y :: y in MergeTables(wiki, pablinho) && y.searchText in Keys(w) ==>
        y == FirstWithKey(w, y.searchText) && y.source == WikipediaSource
  {
    var w := TagAll(wiki, WikipediaSource);
    var p := TagAll(pablinho, PablinhoSource);
    DedupFirst(w + p, {});
    forall y | y in MergeTables(wiki, pablinho) && y.searchText in Keys(w)
      ensures y == FirstWithKey(w, y.searchText) && y.source == WikipediaSource
    {
      FirstWithKeyAppend(w, p, y.searchText);
    }
  }

  /** The kept Wikipedia rows come first, then the kept rows of the second
      table, each part in its original order. */
  lemma MergeSplit(wiki: seq<Movie>, pablinho: seq<Movie>)
    ensures var w := TagAll(wiki, WikipediaSource);
      var p := TagAll(pablinho, PablinhoSource);
      MergeTables(wiki, pablinho) == DedupFrom(w, {}) + DedupFrom(p, Keys(w))
  {
    var w := TagAll(wiki, WikipediaSource);
    DedupAppend(w, TagAll(pablinho, PablinhoSource), {});
    assert {} + Keys(w) == Keys(w);
  }

  /** All rows of a de-duplicated table come from it. */
  lemma DedupSource(rows: seq<Row>, seen: set<string>, source: string)
    requires forall i :: 0 <= i < |rows| ==> rows[i].source == source
    ensures forall i :: 0 <= i < |DedupFrom(rows, seen)| ==> DedupFrom(rows, seen)[i].source == source
  {
    DedupIsSubseq(rows, seen);
    SubseqLength(DedupFrom(rows, seen), rows);
  }

  /** A table made of a part with one source followed by a part with another
      never has a row of the second source before one of the first. */
  lemma PartsInOrder(r: seq<Row>, a: seq<Row>, b: seq<Row>, first: string, second: string)
    requires r == a + b && first != second
    requires forall i :: 0 <= i < |a| ==> a[i].source == first
    requires forall i :: 0 <= i < |b| ==> b[i].source == second
    ensures forall i, j :: 0 <= i < j < |r| && r[i].source == second ==> r[j].source == second
  {
    assert forall i :: 0 <= i < |a| ==> r[i] == a[i];
    assert forall i :: |a| <= i < |r| ==> r[i] == b[i - |a|];
  }

  /** No Wikipedia row follows a row of the second table. */
  lemma MergeOrder(wiki: seq<Movie>, pablinho: seq<Movie>)
    ensures var r := MergeTables(wiki, pablinho);
      forall i, j :: 0 <= i < j < |r| && r[i].source == PablinhoSource ==> r[j].source == PablinhoSource
  {
    var w := TagAll(wiki, WikipediaSource);
    var p := TagAll(pablinho, PablinhoSource);
    var dw, dp := DedupFrom(w, {}), DedupFrom(p, Keys(w));
    assert MergeTables(wiki, pablinho) == dw + dp by {
      MergeSplit(wiki, pablinho);
    }
    assert forall i :: 0 <= i < |dw| ==> dw[i].source == WikipediaSource by {
      DedupSource(w, {}, WikipediaSource);
    }
    assert forall i :: 0 <= i < |dp| ==> dp[i].source == PablinhoSource by {
      DedupSource(p, Keys(w), PablinhoSource);
    }
    PartsInOrder(MergeTables(wiki, pablinho), dw, dp, WikipediaSource, PablinhoSource);
  }
}
