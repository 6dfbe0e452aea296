/**
 * The CSV text written by the export button: cells quoted in the style of section 2 of
 * RFC 4180, cells of a row joined by commas, rows joined by CRLF and the text ended by a
 * CRLF. Beside the writer sits a reader for the same dialect, so that the writer can be
 * specified by what a reader recovers from its output.
 */
module Csv {
  import opened Common

  const CRLF: string := "\r\n"

  /** The characters that force a cell to be quoted: `"`, `,`, LF and CR. */
  predicate IsSpecial(c: char) { c == '"' || c == ',' || c == '\n' || c == '\r' }

  predicate NeedsQuotes(cell: string) { exists i :: 0 <= i < |cell| && IsSpecial(cell[i]) }

  /** `cell.replace(/"/g, '""')`. */
  function DoubleQuotes(s: string): string
  {
    if s == [] then ""
    else (if s[0] == '"' then "\"\"" else [s[0]]) + DoubleQuotes(s[1..])
  }

  /**
   * One written cell: wrapped in quotes, with inner quotes doubled, exactly when it holds
   * a special character; verbatim otherwise.
   */
  function QuoteCell(cell: string): (r: string)
    ensures (|r| > 0 && r[0] == '"') <==> NeedsQuotes(cell)
    ensures !NeedsQuotes(cell) ==> r == cell
  {
    if NeedsQuotes(cell) then "\"" + DoubleQuotes(cell) + "\""
    else
      assert |cell| > 0 ==> !IsSpecial(cell[0]);
      cell
  }

  function QuoteAll(row: seq<string>): seq<string>
  {
    if row == [] then [] else [QuoteCell(row[0])] + QuoteAll(row[1..])
  }

  /** `r.map(quote).join(",")`. */
  function EncodeRow(row: seq<string>): string
  {
    Join(QuoteAll(row), ",")
  }

  function EncodeRows(rows: seq<seq<string>>): seq<string>
  {
    if rows == [] then [] else [EncodeRow(rows[0])] + EncodeRows(rows[1..])
  }

  /** `rows.map(...).join("\r\n") + "\r\n"`. */
  function Serialize(rows: seq<seq<string>>): string
  {
    Join(EncodeRows(rows), CRLF) + CRLF
  }

  /** Every row written and followed by its own CRLF. */
  function Terminated(rows: seq<seq<string>>): string
  {
    if rows == [] then "" else EncodeRow(rows[0]) + CRLF + Terminated(rows[1..])
  }

  // ---------------------------------------------------------------- reader

  /**
   * The body of a quoted cell, read from just after its opening quote: `""` stands for
   * one quote and a lone `"` closes the cell. Gives the cell and the text after the
   * closing quote; `None` when the text ends before the closing quote.
   */
  function ReadQuoted(s: string): (r: Option<(string, string)>)
    ensures r.Some? ==> |r.value.1| < |s|
    decreases |s|
  {
    if s == [] then None
    else if s[0] == '"' then
      if |s| >= 2 && s[1] == '"' then
        match ReadQuoted(s[2..])
        case None => None
        case Some((c, rest)) => Some(("\"" + c, rest))
      else Some(("", s[1..]))
    else
      match ReadQuoted(s[1..])
      case None => None
      case Some((c, rest)) => Some(([s[0]] + c, rest))
  }

  /** An unquoted cell: the longest prefix without a special character, and what follows it. */
  function ReadPlain(s: string): (r: (string, string))
    ensures r.0 + r.1 == s
    ensures !NeedsQuotes(r.0)
    ensures r.1 == [] || IsSpecial(r.1[0])
    decreases |s|
  {
    if s == [] || IsSpecial(s[0]) then ("", s)
    else
      var (c, rest) := ReadPlain(s[1..]);
      assert forall i :: 1 <= i < |[s[0]] + c| ==> ([s[0]] + c)[i] == c[i - 1];
      ([s[0]] + c, rest)
  }

  /** One cell, quoted or not, and the text after it. */
  function ReadCell(s: string): (r: Option<(string, string)>)
    ensures r.Some? ==> |r.value.1| <= |s|
  {
    if |s| > 0 && s[0] == '"' then ReadQuoted(s[1..]) else Some(ReadPlain(s))
  }

  /** The cells of one row up to and including its CRLF, and the text after the CRLF. */
  function ReadRow(s: string): (r: Option<(seq<string>, string)>)
    ensures r.Some? ==> |r.value.0| > 0 && |r.value.1| < |s|
    decreases |s|
  {
    match ReadCell(s)
    case None => None
    case Some((c, rest)) =>
      if |rest| >= 2 && rest[0] == '\r' && rest[1] == '\n' then Some(([c], rest[2..]))
      else if |rest| >= 1 && rest[0] == ',' then
        match ReadRow(rest[1..])
        case None => None
        case Some((cells, after)) => Some(([c] + cells, after))
      else None
  }

  /** All the CRLF-terminated rows of a text. */
  function ReadRecords(s: string): (r: Option<seq<seq<string>>>)
    ensures r.Some? ==> forall i :: 0 <= i < |r.value| ==> |r.value[i]| > 0
    decreases |s|
  {
    if s == [] then Some([])
    else
      match ReadRow(s)
      case None => None
      case Some((row, rest)) =>
        match ReadRecords(rest)
        case None => None
        case Some(rows) => Some([row] + rows)
  }

  /** A whole text that is exactly one cell. */
  function UnquoteCell(s: string): Option<string>
  {
    match ReadCell(s)
    case Some((c, rest)) => if rest == [] then Some(c) else None
    case None => None
  }

  // ---------------------------------------------------------------- round trips

  lemma {:induction false} ReadQuotedDoubled(c: string, rest: string)
    requires rest == [] || rest[0] != '"'
    ensures ReadQuoted(DoubleQuotes(c) + "\"" + rest) == Some((c, rest))
    decreases |c|
  {
    var s := DoubleQuotes(c) + "\"" + rest;
    if c == [] {
      assert s == "\"" + rest;
      assert s[1..] == rest;
    } else if c[0] == '"' {
      assert DoubleQuotes(c) == "\"\"" + DoubleQuotes(c[1..]);
      assert s[2..] == DoubleQuotes(c[1..]) + "\"" + rest;
      ReadQuotedDoubled(c[1..], rest);
      assert "\"" + c[1..] == c;
    } else {
      assert DoubleQuotes(c) == [c[0]] + DoubleQuotes(c[1..]);
      assert s[1..] == DoubleQuotes(c[1..]) + "\"" + rest;
      ReadQuotedDoubled(c[1..], rest);
      assert [c[0]] + c[1..] == c;
    }
  }

  lemma {:induction false} ReadPlainExact(c: string, rest: string)
    requires !NeedsQuotes(c)
    requires rest == [] || IsSpecial(rest[0])
    ensures ReadPlain(c + rest) == (c, rest)
    decreases |c|
  {
    if c == [] {
      assert c + rest == rest;
    } else {
      assert !IsSpecial(c[0]);
      assert (c + rest)[0] == c[0];
      assert (c + rest)[1..] == c[1..] + rest;
      assert forall i :: 0 <= i < |c[1..]| ==> c[1..][i] == c[i + 1];
      ReadPlainExact(c[1..], rest);
      assert [c[0]] + c[1..] == c;
    }
  }

  /** A written cell followed by a separator or the end of the text reads back as the cell. */
  lemma ReadCellQuoted(c: string, rest: string)
    requires rest == [] || rest[0] == ',' || rest[0] == '\r'
    ensures ReadCell(QuoteCell(c) + rest) == Some((c, rest))
  {
    var s := QuoteCell(c) + rest;
    if NeedsQuotes(c) {
      var body := DoubleQuotes(c) + "\"" + rest;
      assert s == "\"" + body;
      assert s[1..] == body;
      ReadQuotedDoubled(c, rest);
      assert ReadCell(s) == ReadQuoted(body);
    } else {
      assert s == c + rest;
      assert |s| > 0 ==> s[0] != '"' by {
        if c != [] { assert s[0] == c[0] && !IsSpecial(c[0]); }
      }
      ReadPlainExact(c, rest);
      assert ReadCell(s) == Some(ReadPlain(s));
    }
  }

  /** Unquoting a written cell gives back the original cell. */
  lemma UnquoteQuote(c: string)
    ensures UnquoteCell(QuoteCell(c)) == Some(c)
  {
    ReadCellQuoted(c, "");
    assert QuoteCell(c) + "" == QuoteCell(c);
  }

  lemma {:induction false} ReadRowEncoded(row: seq<string>, rest: string)
    requires |row| > 0
    ensures ReadRow(EncodeRow(row) + CRLF + rest) == Some((row, rest))
    decreases |row|
  {
    var s := EncodeRow(row) + CRLF + rest;
    var q := QuoteCell(row[0]);
    if |row| == 1 {
      assert QuoteAll(row) == [q];
      assert EncodeRow(row) == q;
      assert s == q + (CRLF + rest);
      ReadCellQuoted(row[0], CRLF + rest);
      assert (CRLF + rest)[0] == '\r' && (CRLF + rest)[1] == '\n';
      assert (CRLF + rest)[2..] == rest;
      assert [row[0]] == row;
    } else {
      assert QuoteAll(row) == [q] + QuoteAll(row[1..]);
      JoinCons(q, QuoteAll(row[1..]), ",");
      var tail := EncodeRow(row[1..]) + CRLF + rest;
      assert s == q + ("," + tail);
      ReadCellQuoted(row[0], "," + tail);
      assert ("," + tail)[1..] == tail;
      ReadRowEncoded(row[1..], rest);
      assert [row[0]] + row[1..] == row;
    }
  }

  lemma {:induction false} ReadTerminated(rows: seq<seq<string>>)
    requires forall i :: 0 <= i < |rows| ==> |rows[i]| > 0
    ensures ReadRecords(Terminated(rows)) == Some(rows)
    decreases |rows|
  {
    if rows != [] {
      ReadRowEncoded(rows[0], Terminated(rows[1..]));
      assert Terminated(rows) == EncodeRow(rows[0]) + CRLF + Terminated(rows[1..]);
      ReadTerminated(rows[1..]);
      assert [rows[0]] + rows[1..] == rows;
    }
  }

  /** For at least one row, joining by CRLF and adding a final CRLF ends every row with a CRLF. */
  lemma {:induction false} SerializeTerminated(rows: seq<seq<string>>)
    requires rows != []
    ensures Serialize(rows) == Terminated(rows)
    decreases |rows|
  {
    if |rows| > 1 {
      var e := EncodeRows(rows);
      assert e == [EncodeRow(rows[0])] + EncodeRows(rows[1..]);
      assert EncodeRows(rows[1..]) != [];
      JoinCons(EncodeRow(rows[0]), EncodeRows(rows[1..]), CRLF);
      SerializeTerminated(rows[1..]);
    } else {
      assert EncodeRows(rows) == [EncodeRow(rows[0])];
      assert rows[1..] == [];
    }
  }

  /**
   * The writer and the reader agree: a non-empty list of rows, none of them empty, is read
   * back from its serialisation exactly.
   */
  lemma CsvRoundTrip(rows: seq<seq<string>>)
    requires rows != []
    requires forall i :: 0 <= i < |rows| ==> |rows[i]| > 0
    ensures ReadRecords(Serialize(rows)) == Some(rows)
  {
    SerializeTerminated(rows);
    ReadTerminated(rows);
  }

  /** The written text ends with a CRLF. */
  lemma SerializeEndsWithCrlf(rows: seq<seq<string>>)
    ensures |Serialize(rows)| >= 2 && Serialize(rows)[|Serialize(rows)| - 2..] == CRLF
  {
  }
}
