/** The cloud server's CSV export, and a reader after RFC 4180, section 2, for which LF separates records
    and CR is an ordinary character. */
module Csv {
  import opened Bytes

  /** A row as the database returns it; a missing or null value prints as nothing. */
  type Row = map<string, Option<string>>

  function CellText(row: Row, key: string): string {
    if key in row && row[key].Some? then row[key].value else ""
  }

  // Printing ------------------------------------------------------------------------------------

  predicate Special(c: char) {
    c == '"' || c == ',' || c == '\n'
  }

  predicate NeedsQuotes(text: string) {
    exists i :: 0 <= i < |text| && Special(text[i])
  }

  function Doubled(text: string): string {
    if text == "" then "" else (if text[0] == '"' then "\"\"" else [text[0]]) + Doubled(text[1..])
  }

  function Escape(text: string): string {
    if NeedsQuotes(text) then "\"" + Doubled(text) + "\"" else text
  }

  function Join(parts: seq<string>, separator: char): string {
    if parts == [] then ""
    else if |parts| == 1 then parts[0]
    else parts[0] + [separator] + Join(parts[1..], separator)
  }

  function Escaped(texts: seq<string>): (e: seq<string>)
    ensures |e| == |texts|
  {
    if texts == [] then [] else [Escape(texts[0])] + Escaped(texts[1..])
  }

  function Cells(row: Row, headers: seq<string>): (texts: seq<string>)
    ensures |texts| == |headers| && forall i :: 0 <= i < |headers| ==> texts[i] == CellText(row, headers[i])
  {
    if headers == [] then [] else [CellText(row, headers[0])] + Cells(row, headers[1..])
  }

  function Lines(rows: seq<Row>, headers: seq<string>): (lines: seq<string>)
    ensures |lines| == |rows|
  {
    if rows == [] then [] else [Join(Escaped(Cells(rows[0], headers)), ',')] + Lines(rows[1..], headers)
  }

  function RowsToCsv(rows: seq<Row>, headers: seq<string>): string {
    Join([Join(headers, ',')] + Lines(rows, headers), '\n')
  }

  // Reading -------------------------------------------------------------------------------------

  /** What is left of the input behind the thing read. */
  datatype Read<T> = Malformed | Read(value: T, rest: string)

  function ReadPlain(s: string): (r: Read<string>)
    ensures r.Read? ==> |r.rest| <= |s|
  {
    if s == "" || s[0] == ',' || s[0] == '\n' then Read("", s)
    else if s[0] == '"' then Malformed
    else
      match ReadPlain(s[1..])
      case Malformed => Malformed
      case Read(text, rest) => Read([s[0]] + text, rest)
  }

  function ReadQuoted(s: string): (r: Read<string>)
    ensures r.Read? ==> |r.rest| < |s|
    decreases |s|
  {
    if s == "" then Malformed
    else if s[0] != '"' then
      match ReadQuoted(s[1..])
      case Malformed => Malformed
      case Read(text, rest) => Read([s[0]] + text, rest)
    else if |s| > 1 && s[1] == '"' then
      match ReadQuoted(s[2..])
      case Malformed => Malformed
      case Read(text, rest) => Read("\"" + text, rest)
    else Read("", s[1..])
  }

  function ReadField(s: string): (r: Read<string>)
    ensures r.Read? ==> |r.rest| <= |s|
  {
    if s != "" && s[0] == '"' then ReadQuoted(s[1..]) else ReadPlain(s)
  }

  function ReadRecord(s: string): (r: Read<seq<string>>)
    ensures r.Read? ==> |r.rest| <= |s|
    decreases |s|
  {
    match ReadField(s)
    case Malformed => Malformed
    case Read(text, rest) =>
      if rest == "" || rest[0] == '\n' then Read([text], rest)
      else if rest[0] != ',' then Malformed
      else
        match ReadRecord(rest[1..])
        case Malformed => Malformed
        case Read(texts, end) => Read([text] + texts, end)
  }

  function ReadCsv(s: string): Option<seq<seq<string>>>
    decreases |s|
  {
    match ReadRecord(s)
    case Malformed => None
    case Read(record, rest) =>
      if rest == "" then Some([record])
      else
        match ReadCsv(rest[1..])
        case None => None
        case Some(records) => Some([record] + records)
  }

  // Round trip ----------------------------------------------------------------------------------

  predicate Ends(rest: string) {
    rest == "" || rest[0] == ',' || rest[0] == '\n'
  }

  lemma {:induction false} PlainReadBack(text: string, rest: string)
    requires !NeedsQuotes(text) && Ends(rest)
    ensures ReadPlain(text + rest) == Read(text, rest)
    decreases |text|
  {
    if text == "" {
      assert text + rest == rest;
    } else {
      assert !Special(text[0]);
      assert forall i :: 0 <= i < |text[1..]| ==> text[1..][i] == text[i + 1];
      PlainReadBack(text[1..], rest);
      assert (text + rest)[1..] == text[1..] + rest;
      assert [text[0]] + text[1..] == text;
    }
  }

  lemma {:induction false} QuotedReadBack(text: string, rest: string)
    requires Ends(rest)
    ensures ReadQuoted(Doubled(text) + "\"" + rest) == Read(text, rest)
    decreases |text|
  {
    var s := Doubled(text) + "\"" + rest;
    if text == "" {
      assert s == "\"" + rest && s[1..] == rest;
    } else {
      var tail := Doubled(text[1..]) + "\"" + rest;
      QuotedReadBack(text[1..], rest);
      assert [text[0]] + text[1..] == text;
      if text[0] == '"' {
        assert s == "\"\"" + tail && s[2..] == tail;
      } else {
        assert s == [text[0]] + tail && s[1..] == tail;
      }
    }
  }

  lemma FieldReadBack(text: string, rest: string)
    requires Ends(rest)
    ensures ReadField(Escape(text) + rest) == Read(text, rest)
  {
    hide NeedsQuotes, ReadQuoted, ReadPlain, Doubled;
    var s := Escape(text) + rest;
    if NeedsQuotes(text) {
      QuotedReadBack(text, rest);
      assert s[0] == '"' && s[1..] == Doubled(text) + "\"" + rest;
    } else {
      PlainReadBack(text, rest);
      PlainStart(text, rest);
    }
  }

  lemma PlainStart(text: string, rest: string)
    requires !NeedsQuotes(text) && Ends(rest)
    ensures text + rest == "" || (text + rest)[0] != '"'
  {
    assert text != "" ==> !Special(text[0]);
  }

  lemma {:induction false} RecordReadBack(texts: seq<string>, rest: string)
    requires texts != [] && (rest == "" || rest[0] == '\n')
    ensures ReadRecord(Join(Escaped(texts), ',') + rest) == Read(texts, rest)
    decreases |texts|
  {
    hide Escape, ReadField;
    var s := Join(Escaped(texts), ',') + rest;
    if |texts| == 1 {
      FieldReadBack(texts[0], rest);
      assert Join(Escaped(texts), ',') == Escape(texts[0]);
      assert texts == [texts[0]];
    } else {
      var more := Join(Escaped(texts[1..]), ',') + rest;
      JoinMore(Escape(texts[0]), Escaped(texts[1..]), ',');
      assert Escaped(texts) == [Escape(texts[0])] + Escaped(texts[1..]);
      assert s == Escape(texts[0]) + ("," + more);
      FieldReadBack(texts[0], "," + more);
      RecordReadBack(texts[1..], rest);
      assert ("," + more)[1..] == more;
      assert texts == [texts[0]] + texts[1..];
    }
  }

  lemma JoinMore(first: string, parts: seq<string>, separator: char)
    requires parts != []
    ensures Join([first] + parts, separator) == first + [separator] + Join(parts, separator)
  {
    assert ([first] + parts)[1..] == parts;
  }

  /** Records of texts, printed one to a line. */
  function Printed(records: seq<seq<string>>): (lines: seq<string>)
    ensures |lines| == |records|
  {
    if records == [] then [] else [Join(Escaped(records[0]), ',')] + Printed(records[1..])
  }

  lemma {:induction false} RecordsReadBack(records: seq<seq<string>>)
    requires records != [] && forall i :: 0 <= i < |records| ==> records[i] != []
    ensures ReadCsv(Join(Printed(records), '\n')) == Some(records)
    decreases |records|
  {
    hide ReadRecord, Escaped;
    var line := Join(Escaped(records[0]), ',');
    if |records| == 1 {
      RecordReadBack(records[0], "");
      assert line + "" == line;
      assert Join(Printed(records), '\n') == line;
      assert records == [records[0]];
    } else {
      var rest := Join(Printed(records[1..]), '\n');
      JoinMore(line, Printed(records[1..]), '\n');
      assert Printed(records) == [line] + Printed(records[1..]);
      assert Join(Printed(records), '\n') == line + ("\n" + rest);
      RecordReadBack(records[0], "\n" + rest);
      RecordsReadBack(records[1..]);
      assert ("\n" + rest)[1..] == rest;
      assert records == [records[0]] + records[1..];
    }
  }

  /** The texts of a table: one record for the headers, one for each row. */
  function Texts(rows: seq<Row>, headers: seq<string>): (records: seq<seq<string>>)
    ensures |records| == |rows| && forall i :: 0 <= i < |rows| ==> records[i] == Cells(rows[i], headers)
  {
    if rows == [] then [] else [Cells(rows[0], headers)] + Texts(rows[1..], headers)
  }

  lemma {:induction false} LinesArePrinted(rows: seq<Row>, headers: seq<string>)
    ensures Lines(rows, headers) == Printed(Texts(rows, headers))
    decreases |rows|
  {
    if rows != [] {
      LinesArePrinted(rows[1..], headers);
      assert Texts(rows, headers)[1..] == Texts(rows[1..], headers);
    }
  }

  predicate PlainHeaders(headers: seq<string>) {
    headers != [] && forall i :: 0 <= i < |headers| ==> !NeedsQuotes(headers[i])
  }

  lemma {:induction false} PlainIsEscaped(headers: seq<string>)
    requires forall i :: 0 <= i < |headers| ==> !NeedsQuotes(headers[i])
    ensures Escaped(headers) == headers
    decreases |headers|
  {
    if headers != [] {
      PlainIsEscaped(headers[1..]);
      assert [headers[0]] + headers[1..] == headers;
    }
  }

  /** A reader recovers the headers and every cell of every row, whatever quotes, commas and line
      breaks they hold. */
  lemma CsvRoundTrip(rows: seq<Row>, headers: seq<string>)
    requires PlainHeaders(headers)
    ensures ReadCsv(RowsToCsv(rows, headers)) == Some([headers] + Texts(rows, headers))
  {
    hide ReadCsv, Join, NeedsQuotes;
    LinesArePrinted(rows, headers);
    PlainIsEscaped(headers);
    var records := [headers] + Texts(rows, headers);
    assert records[1..] == Texts(rows, headers);
    assert Printed(records) == [Join(headers, ',')] + Lines(rows, headers);
    RecordsReadBack(records);
  }

  // Headers are printed as they are ---------------------------------------------------------------

  /** What a quoted field was read from. */
  lemma {:induction false} QuotedOrigin(s: string, text: string, rest: string)
    requires ReadQuoted(s) == Read(text, rest)
    ensures s == Doubled(text) + "\"" + rest
    decreases |s|
  {
    if s[0] != '"' {
      QuotedOrigin(s[1..], text[1..], rest);
      assert s == [s[0]] + s[1..];
    } else if |s| > 1 && s[1] == '"' {
      QuotedOrigin(s[2..], text[1..], rest);
      assert s == "\"\"" + s[2..];
    } else {
      assert s == "\"" + s[1..];
    }
  }

  lemma {:induction false} DoubledQuotes(text: string, n: nat)
    requires n <= |text| && forall i :: 0 <= i < n ==> text[i] == '"'
    ensures 2 * n <= |Doubled(text)| && forall i :: 0 <= i < 2 * n ==> Doubled(text)[i] == '"'
    decreases n
  {
    if n > 0 {
      DoubledQuotes(text[1..], n - 1);
      assert Doubled(text) == "\"\"" + Doubled(text[1..]);
    }
  }

  /** A header that begins with a quote would have to be quotes only, and more of them than it has. */
  lemma {:induction false} OnlyQuotes(header: string, tail: string, rest: string, n: nat)
    requires header != "" && n <= |header| && header + tail == "\"" + Doubled(header) + "\"" + rest
    ensures n < |header + tail| && forall i :: 0 <= i <= n ==> (header + tail)[i] == '"'
    decreases n
  {
    var s := header + tail;
    if n > 0 {
      OnlyQuotes(header, tail, rest, n - 1);
      assert forall i :: 0 <= i < n ==> header[i] == s[i];
      DoubledQuotes(header, n);
      assert s[n] == ("\"" + Doubled(header))[n] == Doubled(header)[n - 1];
    }
  }

  lemma {:induction false} PlainStops(header: string, tail: string)
    requires NeedsQuotes(header)
    ensures match ReadPlain(header + tail) case Malformed => true case Read(text, _) => text != header
    decreases |header|
  {
    var s := header + tail;
    assert s[0] == header[0];
    if !Special(header[0]) {
      var i :| 0 <= i < |header| && Special(header[i]);
      assert header[1..][i - 1] == header[i];
      PlainStops(header[1..], tail);
      assert s[1..] == header[1..] + tail;
    }
  }

  /** A header with a quote, a comma or a line break is never read back. */
  lemma SpecialNotReadBack(header: string, tail: string)
    requires NeedsQuotes(header) && Ends(tail)
    ensures match ReadField(header + tail) case Malformed => true case Read(text, _) => text != header
  {
    hide NeedsQuotes, ReadQuoted, ReadPlain, Doubled;
    var s := header + tail;
    NotEmpty(header);
    assert tail != "" ==> s[|header|] == tail[0];
    if s[0] == '"' {
      match ReadQuoted(s[1..])
      case Malformed =>
      case Read(text, rest) =>
        QuotedOrigin(s[1..], text, rest);
        if text == header {
          assert s == "\"" + s[1..];
          OnlyQuotes(header, tail, rest, |header|);
        }
    } else {
      PlainStops(header, tail);
    }
  }

  lemma NotEmpty(text: string)
    requires NeedsQuotes(text)
    ensures text != ""
  {
  }

  lemma {:induction false} HeadersReadBack(headers: seq<string>, rest: string)
    requires headers != [] && (rest == "" || rest[0] == '\n')
    requires ReadRecord(Join(headers, ',') + rest).Read? && ReadRecord(Join(headers, ',') + rest).value == headers
    ensures forall i :: 0 <= i < |headers| ==> !NeedsQuotes(headers[i])
    decreases |headers|
  {
    hide NeedsQuotes, ReadField;
    var s := Join(headers, ',') + rest;
    var tail := if |headers| == 1 then rest else "," + Join(headers[1..], ',') + rest;
    assert s == headers[0] + tail;
    if NeedsQuotes(headers[0]) {
      SpecialNotReadBack(headers[0], tail);
      assert false;
    }
    if |headers| > 1 {
      PlainField(headers[0], tail);
      assert tail[1..] == Join(headers[1..], ',') + rest;
      HeadersReadBack(headers[1..], rest);
    }
  }

  lemma PlainField(header: string, tail: string)
    requires !NeedsQuotes(header) && Ends(tail)
    ensures ReadField(header + tail) == Read(header, tail)
  {
    PlainReadBack(header, tail);
    PlainStart(header, tail);
  }

  lemma RecordNotEmpty(s: string)
    ensures ReadRecord(s).Read? ==> ReadRecord(s).value != []
  {
  }

  /** The whole law: a table is read back if and only if it has headers and they need no quotes. */
  lemma CsvExactly(rows: seq<Row>, headers: seq<string>)
    ensures ReadCsv(RowsToCsv(rows, headers)) == Some([headers] + Texts(rows, headers)) <==> PlainHeaders(headers)
  {
    hide ReadRecord, NeedsQuotes, Lines, Texts;
    if PlainHeaders(headers) {
      CsvRoundTrip(rows, headers);
    } else if ReadCsv(RowsToCsv(rows, headers)) == Some([headers] + Texts(rows, headers)) {
      var lines := Lines(rows, headers);
      var rest := if lines == [] then "" else "\n" + Join(lines, '\n');
      assert lines != [] ==> ([Join(headers, ',')] + lines)[1..] == lines;
      assert RowsToCsv(rows, headers) == Join(headers, ',') + rest;
      RecordNotEmpty(Join(headers, ',') + rest);
      assert ([headers] + Texts(rows, headers))[0] == headers;
      HeadersReadBack(headers, rest);
    }
  }

  // What is printed -------------------------------------------------------------------------------

  /** Quotes are doubled ... */
  lemma {:induction false} DoubledParts(a: string, b: string)
    ensures Doubled(a + b) == Doubled(a) + Doubled(b) && Doubled("\"") == "\"\""
    decreases |a|
  {
    assert "\""[1..] == "";
    if a == "" {
      assert a + b == b;
    } else {
      assert (a + b)[1..] == a[1..] + b;
      DoubledParts(a[1..], b);
    }
  }

  /** ... and nothing else is. */
  lemma {:induction false} NothingDoubled(a: string)
    requires '"' !in a
    ensures Doubled(a) == a
    decreases |a|
  {
    if a != "" {
      assert forall c :: c in a[1..] ==> c in a;
      NothingDoubled(a[1..]);
      assert [a[0]] + a[1..] == a;
    }
  }

  /** A text is put in quotes, with the quotes in it doubled, if and only if it has a quote, a comma or a line feed. */
  lemma EscapeExactly(text: string)
    ensures Escape(text) == if '"' in text || ',' in text || '\n' in text then "\"" + Doubled(text) + "\"" else text
  {
    if NeedsQuotes(text) {
      var i :| 0 <= i < |text| && Special(text[i]);
      assert text[i] in text;
    } else {
      forall c | c in text
        ensures !Special(c)
      {
        var i :| 0 <= i < |text| && text[i] == c;
      }
    }
  }

  /** The cell of a row under a header: its value, and nothing where it is missing or null. */
  lemma CellExactly(row: Row, headers: seq<string>, i: nat)
    requires i < |headers|
    ensures Cells(row, headers)[i] ==
      if headers[i] !in row || row[headers[i]] == None then "" else row[headers[i]].value
  {
  }

  /** Cells are separated by commas and lines by line feeds, headers first. */
  lemma TwoColumns(h: string, g: string, a: string, b: string)
    requires h != g
    ensures RowsToCsv([map[h := Some(a), g := Some(b)]], [h, g]) == h + "," + g + "\n" + Escape(a) + "," + Escape(b)
    ensures RowsToCsv([map[h := Some(a), g := None]], [h, g]) == h + "," + g + "\n" + Escape(a) + ","
    ensures RowsToCsv([map[g := Some(b)]], [h, g]) == h + "," + g + "\n" + "," + Escape(b)
  {
    hide Escape, NeedsQuotes;
    TwoCells(map[h := Some(a), g := Some(b)], h, g);
    TwoCells(map[h := Some(a), g := None], h, g);
    TwoCells(map[g := Some(b)], h, g);
    assert Escape("") == "" by {
      EscapeExactly("");
    }
    OneRow(map[h := Some(a), g := Some(b)], h, g, a, b);
    OneRow(map[h := Some(a), g := None], h, g, a, "");
    OneRow(map[g := Some(b)], h, g, "", b);
  }

  lemma TwoCells(row: Row, h: string, g: string)
    ensures Cells(row, [h, g]) == [CellText(row, h), CellText(row, g)]
  {
    assert [h, g][1..] == [g] && [g][1..] == [];
  }

  lemma OneRow(row: Row, h: string, g: string, a: string, b: string)
    requires Cells(row, [h, g]) == [a, b]
    ensures RowsToCsv([row], [h, g]) == h + "," + g + "\n" + Escape(a) + "," + Escape(b)
  {
    hide Escape, Cells;
    assert [a, b][1..] == [b] && [b][1..] == [];
    assert Escaped([a, b]) == [Escape(a), Escape(b)];
    JoinTwo(h, g, ',');
    JoinTwo(Escape(a), Escape(b), ',');
    assert [row][1..] == [];
    JoinTwo(h + "," + g, Escape(a) + "," + Escape(b), '\n');
    assert Lines([row], [h, g]) == [Escape(a) + "," + Escape(b)];
    assert [Join([h, g], ',')] + Lines([row], [h, g]) == [h + "," + g, Escape(a) + "," + Escape(b)];
  }

  lemma JoinTwo(a: string, b: string, separator: char)
    ensures Join([a, b], separator) == a + [separator] + b
  {
    assert [a, b][1..] == [b];
  }
}
