/**
 * The vote tally (genre key to count) as the component keeps it: a vote builds a new map by
 * spreading the old one, the reset builds a map of zeros, and the export turns the tally
 * into CSV rows in catalog order.
 */
module Tally {
  import opened Common
  import opened Genres
  import Csv
  import Decimal

  type Votes = map<string, int>

  /** `votes[key] || 0`: a key missing from the tally counts as zero. */
  function VoteOf(t: Votes, key: string): int
  {
    if key in t then t[key] else 0
  }

  /** `{ ...votes, [key]: (votes[key] || 0) + 1 }`. */
  function Increment(t: Votes, key: string): (r: Votes)
    ensures r.Keys == t.Keys + {key}
    ensures r[key] == VoteOf(t, key) + 1
    ensures forall k :: k in t && k != key ==> r[k] == t[k]
  {
    t[key := VoteOf(t, key) + 1]
  }

  /** `Object.fromEntries(GENRES.map(g => [g.key, 0]))`. */
  function Zeroed(catalog: seq<Genre>): (r: Votes)
    ensures r.Keys == KeySet(catalog)
    ensures forall k :: k in r ==> r[k] == 0
  {
    map k | k in KeySet(catalog) :: 0
  }

  /** The tally after a series of votes, cast in order. */
  function CastAll(t: Votes, keys: seq<string>): Votes
    decreases |keys|
  {
    if keys == [] then t else CastAll(Increment(t, keys[0]), keys[1..])
  }

  /**
   * After any interleaving of votes, a key's count has grown by exactly the number of votes
   * cast on it; keys that got no vote keep their entry (present or absent) as it was.
   */
  lemma {:induction false} CastAllCounts(t: Votes, keys: seq<string>, key: string)
    ensures VoteOf(CastAll(t, keys), key) == VoteOf(t, key) + multiset(keys)[key]
    ensures key !in keys ==> (key in CastAll(t, keys) <==> key in t)
    decreases |keys|
  {
    if keys != [] {
      CastAllCounts(Increment(t, keys[0]), keys[1..], key);
      assert keys == [keys[0]] + keys[1..];
      assert multiset(keys) == multiset{keys[0]} + multiset(keys[1..]);
    }
  }

  /** After the reset every catalog key reads zero, whatever it read before. */
  lemma ZeroedReadsZero(catalog: seq<Genre>, i: nat)
    requires i < |catalog|
    ensures VoteOf(Zeroed(catalog), catalog[i].key) == 0
  {
    assert catalog[i].key in KeySet(catalog);
  }

  // ---------------------------------------------------------------- export

  const HEADER: seq<string> := ["genre_key", "genre_label", "votes"]

  /** `[g.key, g.label, String(votes[g.key] || 0)]`. */
  function GenreRow(g: Genre, t: Votes): seq<string>
  {
    [g.key, g.title, Decimal.IntToString(VoteOf(t, g.key))]
  }

  function GenreRows(catalog: seq<Genre>, t: Votes): seq<seq<string>>
  {
    if catalog == [] then [] else [GenreRow(catalog[0], t)] + GenreRows(catalog[1..], t)
  }

  /** The header row, then one row per genre in catalog order. */
  function ExportRows(catalog: seq<Genre>, t: Votes): seq<seq<string>>
  {
    [HEADER] + GenreRows(catalog, t)
  }

  /** The text of the exported file. */
  function ExportCsv(catalog: seq<Genre>, t: Votes): string
  {
    Csv.Serialize(ExportRows(catalog, t))
  }

  lemma {:induction false} GenreRowsAt(catalog: seq<Genre>, t: Votes, i: nat)
    requires i < |catalog|
    ensures |GenreRows(catalog, t)| == |catalog|
    ensures GenreRows(catalog, t)[i] == GenreRow(catalog[i], t)
    decreases |catalog|
  {
    if i > 0 {
      GenreRowsAt(catalog[1..], t, i - 1);
    } else if |catalog| > 1 {
      GenreRowsAt(catalog[1..], t, 0);
    }
  }

  lemma {:induction false} GenreRowsLength(catalog: seq<Genre>, t: Votes)
    ensures |GenreRows(catalog, t)| == |catalog|
    decreases |catalog|
  {
    if catalog != [] { GenreRowsLength(catalog[1..], t); }
  }

  lemma ExportRowsNonEmpty(catalog: seq<Genre>, t: Votes)
    ensures |ExportRows(catalog, t)| == |catalog| + 1
    ensures forall i :: 0 <= i < |ExportRows(catalog, t)| ==> |ExportRows(catalog, t)[i]| > 0
  {
    var rows := ExportRows(catalog, t);
    GenreRowsLength(catalog, t);
    forall i | 0 <= i < |rows| ensures |rows[i]| > 0 {
      if i > 0 { GenreRowsAt(catalog, t, i - 1); }
    }
  }

  /** `row` holds the genre's key, its label, and a cell that reads back as its count ("0" when absent). */
  predicate RowOfGenre(row: seq<string>, g: Genre, t: Votes)
  {
    && |row| == 3
    && row[..2] == [g.key, g.title]
    && Decimal.ParseInt(row[2]) == Some(VoteOf(t, g.key))
    && (g.key !in t ==> row[2] == "0")
  }

  /** A genre's row: its key, its label, and its count in decimal, which reads back as the count. */
  lemma GenreRowFacts(g: Genre, t: Votes)
    ensures RowOfGenre(GenreRow(g, t), g, t)
  {
    Decimal.IntRoundTrip(VoteOf(t, g.key));
    assert Decimal.IntToString(0) == "0";
  }

  /**
   * Reading the exported text back gives the header `genre_key,genre_label,votes`, then for
   * each genre in catalog order its key, its label and its count written in decimal (a key
   * missing from the tally as "0"); the count cell reads back as the count.
   */
  lemma ExportCsvReadsBack(catalog: seq<Genre>, t: Votes)
    ensures Csv.ReadRecords(ExportCsv(catalog, t)).Some?
    ensures var rows := Csv.ReadRecords(ExportCsv(catalog, t)).value;
      && |rows| == |catalog| + 1
      && rows[0] == ["genre_key", "genre_label", "votes"]
      && forall i :: 0 <= i < |catalog| ==> RowOfGenre(rows[i + 1], catalog[i], t)
  {
    var rows := ExportRows(catalog, t);
    ExportRowsNonEmpty(catalog, t);
    Csv.CsvRoundTrip(rows);
    assert Csv.ReadRecords(ExportCsv(catalog, t)) == Some(rows);
    assert rows[0] == HEADER;
    forall i | 0 <= i < |catalog| ensures RowOfGenre(rows[i + 1], catalog[i], t) {
      GenreRowsAt(catalog, t, i);
      assert rows[i + 1] == GenreRow(catalog[i], t);
      GenreRowFacts(catalog[i], t);
    }
  }

  /** No header cell needs quoting, so the header row is written verbatim. */
  lemma HeaderEncoded()
    ensures Csv.EncodeRow(HEADER) == "genre_key,genre_label,votes"
  {
    var a, b, c := "genre_key", "genre_label", "votes";
    HeaderPlain();
    JoinCons(a, [b, c], ",");
    JoinCons(b, [c], ",");
  }

  /** Every header cell is written verbatim. */
  lemma HeaderPlain()
    ensures Csv.QuoteAll(HEADER) == HEADER
  {
    var a, b, c := "genre_key", "genre_label", "votes";
    PlainLetters(a);
    PlainLetters(b);
    PlainLetters(c);
    assert Csv.QuoteAll([c]) == [c];
    assert [b, c][1..] == [c];
    assert Csv.QuoteAll([b, c]) == [b, c];
    assert HEADER[1..] == [b, c];
  }

  /** A cell of lower-case letters and underscores is written verbatim. */
  lemma PlainLetters(s: string)
    requires forall i :: 0 <= i < |s| ==> 'a' <= s[i] <= 'z' || s[i] == '_'
    ensures Csv.QuoteCell(s) == s
  {
    assert !Csv.NeedsQuotes(s);
  }

  /** The exported text starts with the header line and ends with a CRLF. */
  lemma ExportCsvFraming(catalog: seq<Genre>, t: Votes)
    ensures var csv := ExportCsv(catalog, t);
      && |csv| >= 29
      && csv[..29] == "genre_key,genre_label,votes\r\n"
      && csv[|csv| - 2..] == "\r\n"
  {
    var rows := ExportRows(catalog, t);
    ExportRowsNonEmpty(catalog, t);
    Csv.SerializeTerminated(rows);
    Csv.SerializeEndsWithCrlf(rows);
    HeaderEncoded();
    assert Csv.Terminated(rows) == "genre_key,genre_label,votes" + Csv.CRLF + Csv.Terminated(rows[1..]);
  }
}
