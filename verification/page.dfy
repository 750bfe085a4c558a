/** The upload page of `app/page.tsx`: how an uploaded file becomes rows, and
    how the results become the exported CSV. The CSV is read back by a small
    reader of quoted fields, which recovers exactly the fields written. */
module Page {
  import opened Base
  import opened Text
  import ComposersRoute

  // ---------------------------------------------------------------------
  // handleUpload: rows of the uploaded text
  // ---------------------------------------------------------------------

  const NewlineSeparators: set<char> := {'\n'}

  /** What a row sent to the server looks like: non-empty, trimmed, one line. */
  predicate IsUploadRow(x: string) {
    x != [] && !IsSpace(x[0]) && !IsSpace(x[|x| - 1]) && '\n' !in x
  }

  /** A trimmed line, empty or not. */
  predicate TrimmedLine(x: string) {
    (x != [] ==> !IsSpace(x[0]) && !IsSpace(x[|x| - 1])) && '\n' !in x
  }

  /** `text.split("\n").map((r) => r.trim()).filter(Boolean)`. */
  function UploadRows(text: string): (rows: seq<string>)
    ensures |rows| <= |Split(text, AnyChar(NewlineSeparators))|
    ensures Every(rows, IsUploadRow)
  {
    var trimmed := Map(Split(text, AnyChar(NewlineSeparators)), Trim);
    TrimmedLines(text);
    KeepNonEmptyEvery(trimmed, TrimmedLine);
    var rows := KeepNonEmpty(trimmed);
    assert Every(rows, IsUploadRow) by {
      forall k | 0 <= k < |rows|
        ensures IsUploadRow(rows[k])
      {
        assert TrimmedLine(rows[k]) && rows[k] != [];
      }
    }
    rows
  }

  lemma TrimmedLines(text: string)
    ensures Every(Map(Split(text, AnyChar(NewlineSeparators)), Trim), TrimmedLine)
  {
    var lines := Split(text, AnyChar(NewlineSeparators));
    var trimmed := Map(lines, Trim);
    SplitAnyCharEvery(text, NewlineSeparators, (c: char) => c != '\n');
    forall k | 0 <= k < |trimmed|
      ensures TrimmedLine(trimmed[k])
    {
      TrimmedLineOf(lines[k]);
    }
  }

  lemma TrimmedLineOf(line: string)
    requires Every(line, (c: char) => c != '\n')
    ensures TrimmedLine(Trim(line))
  {
    TrimEvery(line, (c: char) => c != '\n');
    var t := Trim(line);
    assert forall i :: 0 <= i < |t| ==> t[i] != '\n';
  }

  /** Rows keep file order: the rows of two texts joined by a newline are the
      rows of the first followed by those of the second. */
  lemma UploadRowsAppend(a: string, b: string)
    ensures UploadRows(a + "\n" + b) == UploadRows(a) + UploadRows(b)
  {
    SplitAroundAnyChar(a, '\n', b, NewlineSeparators);
    MapAppend(Split(a, AnyChar(NewlineSeparators)), Split(b, AnyChar(NewlineSeparators)), Trim);
    KeepNonEmptyAppend(Map(Split(a, AnyChar(NewlineSeparators)), Trim), Map(Split(b, AnyChar(NewlineSeparators)), Trim));
  }

  /** A single line gives its trimmed self, or nothing when it is blank. */
  lemma UploadRowsLine(line: string)
    requires '\n' !in line
    ensures UploadRows(line) == if Trim(line) == [] then [] else [Trim(line)]
  {
    SplitAnyCharAbsent(line, NewlineSeparators);
    assert Map([line], Trim) == [Trim(line)];
  }

  // ---------------------------------------------------------------------
  // exportCSV: escaping
  // ---------------------------------------------------------------------

  /** `s.replace(/"/g, '""')`. */
  function Double(s: string): (r: string)
    ensures |r| >= |s|
    decreases |s|
  {
    if s == [] then []
    else (if s[0] == '"' then "\"\"" else [s[0]]) + Double(s[1..])
  }

  /** `escape(v)` on the text `String(v ?? "")`. */
  function Escape(s: string): (r: string)
    ensures |r| >= 2 && r[0] == '"' && r[|r| - 1] == '"'
  {
    "\"" + Double(s) + "\""
  }

  /** Turning each `""` back into `"`. */
  function Undouble(s: string): (r: string)
    decreases |s|
  {
    if s == [] then []
    else if |s| >= 2 && s[0] == '"' && s[1] == '"' then "\"" + Undouble(s[2..])
    else [s[0]] + Undouble(s[1..])
  }

  /** Removing the outer quotes of an escaped field. */
  function Unescape(e: string): (r: string)
    requires |e| >= 2
  {
    Undouble(e[1..|e| - 1])
  }

  lemma {:induction false} UndoubleDouble(s: string)
    ensures Undouble(Double(s)) == s
    decreases |s|
  {
    if s != [] {
      UndoubleDouble(s[1..]);
      var d := Double(s);
      if s[0] == '"' {
        assert d[2..] == Double(s[1..]);
      } else {
        assert d[1..] == Double(s[1..]);
      }
    }
  }

  /** Stripping the outer quotes and un-doubling gives the text back. */
  lemma UnescapeEscape(s: string)
    ensures Unescape(Escape(s)) == s
  {
    var e := Escape(s);
    assert e[1..|e| - 1] == Double(s);
    UndoubleDouble(s);
  }

  // ---------------------------------------------------------------------
  // Reading the CSV back
  // ---------------------------------------------------------------------

  /** The rest of a quoted field after its opening quote: the field's text and
      what follows the closing quote, or nothing when the quote is unclosed. */
  function ReadQuoted(s: string): (r: Option<(string, string)>)
    ensures r.Some? ==> |r.value.1| < |s|
    decreases |s|
  {
    if s == [] then None
    else if s[0] == '"' then
      if |s| >= 2 && s[1] == '"' then
        match ReadQuoted(s[2..])
        case None => None
        case Some(p) => Some(("\"" + p.0, p.1))
      else Some(([], s[1..]))
    else
      match ReadQuoted(s[1..])
      case None => None
      case Some(p) => Some(([s[0]] + p.0, p.1))
  }

  /** A quoted field at the start of `s`. */
  function ReadField(s: string): (r: Option<(string, string)>)
    ensures r.Some? ==> |r.value.1| < |s|
  {
    if s != [] && s[0] == '"' then ReadQuoted(s[1..]) else None
  }

  /** Text that cannot continue a field once its closing quote is read. */
  predicate EndsField(rest: string) {
    rest == [] || rest[0] != '"'
  }

  lemma {:induction false} ReadQuotedDouble(v: string, rest: string)
    requires EndsField(rest)
    ensures ReadQuoted(Double(v) + "\"" + rest) == Some((v, rest))
    decreases |v|
  {
    var s := Double(v) + "\"" + rest;
    if v == [] {
      assert s == "\"" + rest && s[1..] == rest;
    } else {
      ReadQuotedDouble(v[1..], rest);
      var tail := Double(v[1..]) + "\"" + rest;
      if v[0] == '"' {
        assert s == "\"\"" + tail && s[2..] == tail;
        assert "\"" + v[1..] == v;
      } else {
        assert s == [v[0]] + tail && s[1..] == tail;
        assert [v[0]] + v[1..] == v;
      }
    }
  }

  /** An escaped field is read back as the text it escapes. */
  lemma ReadFieldEscape(v: string, rest: string)
    requires EndsField(rest)
    ensures ReadField(Escape(v) + rest) == Some((v, rest))
  {
    var s := Escape(v) + rest;
    assert s[1..] == Double(v) + "\"" + rest;
    ReadQuotedDouble(v, rest);
  }

  /** Quoted fields separated by `,`, up to the first text that is not a
      comma after a field. */
  function ReadLine(s: string): (r: Option<(seq<string>, string)>)
    ensures r.Some? ==> |r.value.1| < |s|
    decreases |s|
  {
    match ReadField(s)
    case None => None
    case Some(p) =>
      if p.1 != [] && p.1[0] == ',' then
        match ReadLine(p.1[1..])
        case None => None
        case Some(q) => Some(([p.0] + q.0, q.1))
      else Some(([p.0], p.1))
  }

  /** Lines separated by `\r\n`, up to the end of the text. */
  function ReadCsv(s: string): (r: Option<seq<seq<string>>>)
    decreases |s|
  {
    match ReadLine(s)
    case None => None
    case Some(p) =>
      if p.1 == [] then Some([p.0])
      else if |p.1| >= 2 && p.1[..2] == "\r\n" then
        match ReadCsv(p.1[2..])
        case None => None
        case Some(ls) => Some([p.0] + ls)
      else None
  }

  // ---------------------------------------------------------------------
  // exportCSV: assembly
  // ---------------------------------------------------------------------

  /** `row.map(escape).join(",")`. */
  function Line(fields: seq<string>): string {
    JoinWith(Map(fields, Escape), ",")
  }

  /** `lines.map(...).join("\r\n")`. */
  function Csv(lines: seq<seq<string>>): string {
    JoinWith(Map(lines, Line), "\r\n")
  }

  lemma JoinMapCons<T>(x: T, xs: seq<T>, f: T -> string, sep: string)
    requires |xs| >= 1
    ensures JoinWith(Map([x] + xs, f), sep) == f(x) + sep + JoinWith(Map(xs, f), sep)
  {
    var m := Map([x] + xs, f);
    assert m[1..] == Map(xs, f);
    assert m == [f(x)] + Map(xs, f);
    JoinWithCons(f(x), Map(xs, f), sep);
  }

  /** Text that cannot continue a line after a field. */
  predicate EndsLine(rest: string) {
    rest == [] || (rest[0] != '"' && rest[0] != ',')
  }

  /** A field followed by a comma: the line goes on after the comma. */
  lemma ReadLineMore(s: string, v: string, tail: string)
    requires ReadField(s) == Some((v, "," + tail))
    ensures ReadLine(s) == match ReadLine(tail) case None => None case Some(q) => Some(([v] + q.0, q.1))
  {
    assert ("," + tail)[1..] == tail;
  }

  /** A field followed by anything else ends the line. */
  lemma ReadLineLast(s: string, v: string, rest: string)
    requires ReadField(s) == Some((v, rest)) && EndsLine(rest)
    ensures ReadLine(s) == Some(([v], rest))
  {
  }

  /** A written line is read back as its fields. */
  lemma {:induction false} ReadLineOf(fields: seq<string>, rest: string)
    requires |fields| >= 1 && EndsLine(rest)
    ensures ReadLine(Line(fields) + rest) == Some((fields, rest))
    decreases |fields|
  {
    if |fields| == 1 {
      assert Map(fields, Escape) == [Escape(fields[0])];
      assert Line(fields) == Escape(fields[0]);
      ReadFieldEscape(fields[0], rest);
      ReadLineLast(Line(fields) + rest, fields[0], rest);
      assert [fields[0]] == fields;
    } else {
      var fs := fields[1..];
      assert fields == [fields[0]] + fs;
      JoinMapCons(fields[0], fs, Escape, ",");
      var tail := Line(fs) + rest;
      assert Line(fields) + rest == Escape(fields[0]) + ("," + tail);
      ReadFieldEscape(fields[0], "," + tail);
      ReadLineMore(Line(fields) + rest, fields[0], tail);
      ReadLineOf(fs, rest);
      assert [fields[0]] + fs == fields;
    }
  }

  /** A line followed by `\r\n`: the CSV goes on after it. */
  lemma ReadCsvMore(s: string, fields: seq<string>, tail: string)
    requires ReadLine(s) == Some((fields, "\r\n" + tail))
    ensures ReadCsv(s) == match ReadCsv(tail) case None => None case Some(ls) => Some([fields] + ls)
  {
    assert ("\r\n" + tail)[..2] == "\r\n" && ("\r\n" + tail)[2..] == tail;
  }

  /** A written CSV is read back as its lines of fields. */
  lemma {:induction false} ReadCsvOf(lines: seq<seq<string>>)
    requires |lines| >= 1
    requires forall k :: 0 <= k < |lines| ==> |lines[k]| >= 1
    ensures ReadCsv(Csv(lines)) == Some(lines)
    decreases |lines|
  {
    if |lines| == 1 {
      assert Map(lines, Line) == [Line(lines[0])];
      assert Csv(lines) == Line(lines[0]) + [];
      ReadLineOf(lines[0], []);
      assert [lines[0]] == lines;
    } else {
      var ls := lines[1..];
      assert lines == [lines[0]] + ls;
      JoinMapCons(lines[0], ls, Line, "\r\n");
      assert Csv(lines) == Line(lines[0]) + ("\r\n" + Csv(ls));
      ReadLineOf(lines[0], "\r\n" + Csv(ls));
      ReadCsvMore(Csv(lines), lines[0], Csv(ls));
      ReadCsvOf(ls);
    }
  }

  /** One element of `results` as the page sees it: any field may be missing. */
  datatype ExportRow = ExportRow(artist: Option<string>, title: Option<string>, composers: Option<seq<string>>)

  /** The header line. */
  const Header := ["artist", "title", "song writer"]

  /** The byte-order mark written before the CSV. */
  const Bom := '\U{FEFF}'

  /** The three fields of a result: missing text is `""`, and the composers
      are joined with `"; "`. */
  function ExportFields(row: ExportRow): (fields: seq<string>)
    ensures |fields| == 3
  {
    [row.artist.GetOr([]), row.title.GetOr([]), JoinWith(row.composers.GetOr([]), "; ")]
  }

  /** How a record of the handler is seen by the page. */
  function FromRecord(rec: ComposersRoute.Record): ExportRow {
    ExportRow(Some(rec.artist), Some(rec.title), Some(rec.composers))
  }

  /** `exportCSV()`: nothing to export without results; otherwise the BOM
      followed by the header and one line per result. */
  function Export(results: seq<ExportRow>): (content: Option<string>)
    ensures content.None? <==> results == []
    ensures content.Some? ==> content.value != [] && content.value[0] == Bom
    ensures content.Some? ==> ReadCsv(content.value[1..]) == Some([Header] + Map(results, ExportFields))
  {
    if results == [] then None
    else
      var lines := [Header] + Map(results, ExportFields);
      ReadCsvOf(lines);
      var content := [Bom] + Csv(lines);
      assert content[1..] == Csv(lines);
      Some(content)
  }

  /** The export of the handler's records: one line per record after the
      header, holding its artist, title and composers joined with `"; "`. */
  lemma ExportRecords(records: seq<ComposersRoute.Record>)
    requires records != []
    ensures var content := Export(Map(records, FromRecord)).value;
      var read := ReadCsv(content[1..]).value;
      && |read| == |records| + 1 && read[0] == Header
      && forall k :: 0 <= k < |records| ==>
           read[k + 1] == [records[k].artist, records[k].title, JoinWith(records[k].composers, "; ")]
  {
  }
}
