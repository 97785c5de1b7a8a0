/**
  `parseTsv` of the OCR ingestion script: Tesseract's TSV output becomes one
  record per data line, keyed by the header line's column names.
 */
module Tsv {
  import opened JsString

  /** An object built by `entry[key] = ...`: column name to cell text. */
  type Record = map<string, string>

  /** One trailing carriage return removed. */
  function DropCR(line: string): (r: string)
    ensures line == r || line == r + "\r"
  {
    if |line| > 0 && line[|line| - 1] == '\r' then line[..|line| - 1] else line
  }

  /** `s.split(/\r?\n/)`: pieces between line feeds, a carriage return
      just before a line feed belonging to the separator. The last piece is
      followed by no line feed and keeps what it has. */
  function SplitLines(s: string): (lines: seq<string>)
    ensures |lines| == |Split(s, '\n')| && |lines| >= 1
    ensures forall i | 0 <= i < |lines| - 1 :: lines[i] == DropCR(Split(s, '\n')[i])
    ensures lines[|lines| - 1] == Split(s, '\n')[|lines| - 1]
  {
    var pieces := Split(s, '\n');
    seq(|pieces|, i requires 0 <= i < |pieces| => if i < |pieces| - 1 then DropCR(pieces[i]) else pieces[i])
  }

  /** The lines with their carriage returns put back, joined by line feeds,
      are the text split: splitting loses nothing but the separators. */
  lemma SplitLinesLossless(s: string)
    ensures var lines := SplitLines(s);
      var pieces := Split(s, '\n');
      && Join(pieces, "\n") == s
      && (forall i | 0 <= i < |lines| - 1 :: pieces[i] == lines[i] || pieces[i] == lines[i] + "\r")
      && (forall i | 0 <= i < |lines| :: '\n' !in lines[i])
  {
    JoinSplit(s, '\n');
    var lines := SplitLines(s);
    var pieces := Split(s, '\n');
    forall i | 0 <= i < |lines|
      ensures '\n' !in lines[i]
    {
      assert pieces[i] in pieces;
      if i < |lines| - 1 {
        assert lines[i] <= pieces[i];
      }
    }
  }

  /** `values[index] ?? ""`. */
  function Cell(values: seq<string>, index: nat): string
  {
    if index < |values| then values[index] else ""
  }

  /** The object `headers.forEach` fills in: each header gets the cell at
      its column; a repeated header keeps the later column. */
  function RecordOf(headers: seq<string>, values: seq<string>): (r: Record)
    ensures forall k :: k in r <==> k in headers
    decreases |headers|
  {
    if |headers| == 0 then map[]
    else
      var n := |headers| - 1;
      var before := RecordOf(headers[..n], values);
      assert forall k :: k in headers <==> k in headers[..n] || k == headers[n];
      before[headers[n] := Cell(values, n)]
  }

  /** Each header maps to the cell at its last column, or "" when the row is
      shorter; cells beyond the headers are ignored. */
  lemma {:induction false} RecordValue(headers: seq<string>, values: seq<string>, i: nat)
    requires i < |headers|
    requires forall j | i < j < |headers| :: headers[j] != headers[i]
    ensures RecordOf(headers, values)[headers[i]] == Cell(values, i)
    decreases |headers|
  {
    var n := |headers| - 1;
    if i < n {
      assert headers[..n][i] == headers[i];
      RecordValue(headers[..n], values, i);
    }
  }

  /** The cells of a row beyond the headers play no part. */
  lemma {:induction false} ExtraColumnsIgnored(headers: seq<string>, values: seq<string>, extra: seq<string>)
    requires |values| >= |headers|
    ensures RecordOf(headers, values + extra) == RecordOf(headers, values)
    decreases |headers|
  {
    if |headers| > 0 {
      ExtraColumnsIgnored(headers[..|headers| - 1], values, extra);
      assert (values + extra)[|headers| - 1] == values[|headers| - 1];
    }
  }

  /** The forEach over the headers. */
  method FillRecord(headers: seq<string>, values: seq<string>) returns (entry: Record)
    ensures entry == RecordOf(headers, values)
  {
    entry := map[];
    var index := 0;
    while index < |headers|
      invariant index <= |headers|
      invariant entry == RecordOf(headers[..index], values)
    {
      assert headers[..index + 1][..index] == headers[..index];
      entry := entry[headers[index] := if index < |values| then values[index] else ""];
      index := index + 1;
    }
    assert headers[..index] == headers;
  }

  /** The header line of the trimmed input, split on tabs. */
  function Headers(tsv: string): seq<string>
  {
    Split(SplitLines(Trim(tsv))[0], '\t')
  }

  /** The lines after the header. */
  function DataLines(tsv: string): seq<string>
  {
    SplitLines(Trim(tsv))[1..]
  }

  /** One record per row, keyed by the headers. */
  function RecordsOf(headers: seq<string>, rows: seq<string>): (rs: seq<Record>)
    ensures |rs| == |rows|
  {
    seq(|rows|, i requires 0 <= i < |rows| => RecordOf(headers, Split(rows[i], '\t')))
  }

  /** What `parseTsv` returns: one record per data line. */
  function Records(tsv: string): (rs: seq<Record>)
    ensures |rs| == |SplitLines(Trim(tsv))| - 1
  {
    RecordsOf(Headers(tsv), DataLines(tsv))
  }

  /** `parseTsv`. */
  method ParseTsv(tsv: string) returns (records: seq<Record>)
    ensures records == Records(tsv)
  {
    var lines := SplitLines(Trim(tsv));
    var headers := Split(lines[0], '\t');
    records := ParseRows(headers, lines[1..]);
  }

  /** The `lines.slice(1).map` loop of `parseTsv`. */
  method ParseRows(headers: seq<string>, rows: seq<string>) returns (records: seq<Record>)
    ensures records == RecordsOf(headers, rows)
  {
    records := [];
    var i := 0;
    while i < |rows|
      invariant i <= |rows| && |records| == i
      invariant forall j | 0 <= j < i :: records[j] == RecordOf(headers, Split(rows[j], '\t'))
    {
      var values := Split(rows[i], '\t');
      var entry := FillRecord(headers, values);
      records := records + [entry];
      i := i + 1;
    }
  }

  /** Record i is built from data line i: every header is a key, a header
      that appears once maps to the cell in its column ("" past the end of
      the line), and there are no other keys. */
  lemma RecordOfLine(tsv: string, i: nat, column: nat)
    requires i < |Records(tsv)|
    requires column < |Headers(tsv)|
    requires forall j | 0 <= j < |Headers(tsv)| && j != column :: Headers(tsv)[j] != Headers(tsv)[column]
    ensures forall k :: k in Records(tsv)[i] <==> k in Headers(tsv)
    ensures Records(tsv)[i][Headers(tsv)[column]] == Cell(Split(DataLines(tsv)[i], '\t'), column)
  {
    RecordValue(Headers(tsv), Split(DataLines(tsv)[i], '\t'), column);
  }
}
