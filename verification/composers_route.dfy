/** The `POST /api/composers` handler of `app/api/composers/route.ts`: each
    uploaded row is split into artist and title, cleaned, and looked up with
    Muso; the row gives one record, or none when Muso finds no composers.
    The handler's fallback chain is commented out in the system and is not
    part of the behaviour. */
module ComposersRoute {
  import opened Base
  import opened Text
  import opened Helpers
  import Muso

  // ---------------------------------------------------------------------
  // Row splitting
  // ---------------------------------------------------------------------

  /** The separator preferred when a row contains it. */
  const DashSeparator := " - "

  /** The tab character rows are split on otherwise. */
  const TabSeparators: set<char> := {'\t'}

  /** `let [artistRaw, titleRaw] = parts`: a missing second element is
      `undefined`, which `clean` turns into `""` just as it does `""`. */
  function FirstTwo(parts: seq<string>): (r: (string, string))
    requires |parts| >= 1
    ensures r.0 == parts[0] && (|parts| == 1 ==> r.1 == [])
    ensures |parts| >= 2 ==> r.1 == parts[1]
  {
    (parts[0], if |parts| >= 2 then parts[1] else [])
  }

  /** The two raw fields of a row: split on `" - "` when the row contains it,
      on tab otherwise; later pieces are dropped. */
  function RowFields(row: string): (r: (string, string))
    ensures Contains(row, DashSeparator) ==> !Contains(r.0, DashSeparator) && !Contains(r.1, DashSeparator)
    ensures !Contains(row, DashSeparator) ==> '\t' !in r.0 && '\t' !in r.1
    ensures r.0 <= row
  {
    if Contains(row, DashSeparator) then
      var parts := SplitOn(row, DashSeparator);
      SplitOnPieces(row, DashSeparator);
      SplitOnHead(row, DashSeparator);
      FirstTwo(parts)
    else
      var parts := Split(row, AnyChar(TabSeparators));
      SplitAnyCharEvery(row, TabSeparators, (c: char) => c != '\t');
      SplitFromHead(row, AnyChar(TabSeparators), []);
      assert [] + row == row;
      assert Every(parts[0], (c: char) => c != '\t');
      assert |parts| >= 2 ==> Every(parts[1], (c: char) => c != '\t');
      FirstTwo(parts)
  }

  /** The first piece of a split on a literal is a prefix of the text. */
  lemma SplitOnHead(s: string, sep: string)
    requires sep != []
    ensures SplitOn(s, sep)[0] <= s
  {
  }

  /** With `" - "` in the row, the artist is the text before its first
      occurrence and the title the text from there up to the next occurrence
      or the end; later segments are dropped. */
  lemma DashRowFields(row: string)
    requires Contains(row, DashSeparator)
    ensures var r := RowFields(row);
      && Find(row, DashSeparator) == Some(|r.0|)
      && r.0 == row[..|r.0|]
      && var rest := row[|r.0| + 3..];
         r.1 == match Find(rest, DashSeparator) case Some(j) => rest[..j] case None => rest
  {
    var i := Find(row, DashSeparator).value;
    var rest := row[i + 3..];
    assert SplitOn(row, DashSeparator) == [row[..i]] + SplitOn(rest, DashSeparator);
  }

  /** The pieces of a split on tab: the text before the first tab, then the
      split of what follows it. */
  lemma TabSplit(s: string)
    ensures '\t' !in s ==> Split(s, AnyChar(TabSeparators)) == [s]
    ensures '\t' in s ==>
      var i := IndexOf(s, '\t').value;
      Split(s, AnyChar(TabSeparators)) == [s[..i]] + Split(s[i + 1..], AnyChar(TabSeparators))
  {
    if '\t' in s {
      var i := IndexOf(s, '\t').value;
      TabSplitAt(s, i);
    } else {
      TabFree(s);
      SplitAnyCharAbsent(s, TabSeparators);
    }
  }

  lemma TabSplitAt(s: string, i: nat)
    requires i < |s| && s[i] == '\t' && '\t' !in s[..i]
    ensures Split(s, AnyChar(TabSeparators)) == [s[..i]] + Split(s[i + 1..], AnyChar(TabSeparators))
  {
    var a := s[..i];
    var b := s[i + 1..];
    TabFree(a);
    SplitAnyCharAbsent(a, TabSeparators);
    assert s == a + ['\t'] + b;
    SplitAroundAnyChar(a, '\t', b, TabSeparators);
  }

  lemma TabFree(s: string)
    requires '\t' !in s
    ensures Every(s, (c: char) => c !in TabSeparators)
  {
    assert forall k :: 0 <= k < |s| ==> s[k] != '\t';
  }

  /** Without `" - "`, the artist is the text before the first tab and the
      title the text between the first and the second tab; a row without a
      tab is all artist. */
  lemma TabRowFields(row: string)
    requires !Contains(row, DashSeparator)
    ensures '\t' !in row ==> RowFields(row) == (row, [])
    ensures '\t' in row ==>
      var i := IndexOf(row, '\t').value;
      var rest := row[i + 1..];
      RowFields(row) == (row[..i], if '\t' in rest then rest[..IndexOf(rest, '\t').value] else rest)
  {
    TabSplit(row);
    if '\t' in row {
      var i := IndexOf(row, '\t').value;
      TabSplit(row[i + 1..]);
    }
  }

  /** `artist - title` gives back both fields when the artist has no `" -"`
      in it and the title no `" - "`. */
  lemma DashRow(a: string, b: string)
    requires !Contains(a, " -") && !Contains(b, DashSeparator)
    ensures RowFields(a + DashSeparator + b) == (a, b)
  {
    var row := a + DashSeparator + b;
    assert row[|a|..][..3] == DashSeparator;
    assert row[|a|] == ' ';
    forall j | 0 <= j < |a|
      ensures !StartsWith(row[j..], DashSeparator)
    {
      if StartsWith(row[j..], DashSeparator) {
        assert row[j..][1] == row[j + 1] == '-';
        if j + 2 <= |a| {
          assert row[j..][0] == row[j] == a[j] && a[j + 1] == row[j + 1];
          assert a[j..][..2] == " -";
          FindSpec(a, " -");
          assert false;
        }
      }
    }
    FindAt(row, DashSeparator, |a|);
    assert row[|a| + 3..] == b;
    assert row[..|a|] == a;
    assert SplitOn(b, DashSeparator) == [b];
    assert SplitOn(row, DashSeparator) == [a] + [b];
  }

  /** `artist<TAB>title` gives back both fields when neither holds a tab and
      the row has no `" - "`. */
  lemma TabRow(a: string, b: string)
    requires !Contains(a + "\t" + b, DashSeparator) && '\t' !in a && '\t' !in b
    ensures RowFields(a + "\t" + b) == (a, b)
  {
    SplitAroundAnyChar(a, '\t', b, TabSeparators);
    SplitAnyCharAbsent(a, TabSeparators);
    SplitAnyCharAbsent(b, TabSeparators);
  }

  /** A row with neither separator is all artist, and the title is empty. */
  lemma PlainRow(row: string)
    requires !Contains(row, DashSeparator) && '\t' !in row
    ensures RowFields(row) == (row, [])
  {
    SplitAnyCharAbsent(row, TabSeparators);
  }

  /** The cleaned artist and title of a row. */
  function ParseRow(row: string): (r: (string, string))
    ensures Tidy(r.0) && Tidy(r.1) && NoMojibake(r.0) && NoMojibake(r.1)
    ensures RowFields(row).1 == [] ==> r.1 == []
  {
    var fields := RowFields(row);
    (Clean(fields.0), Clean(fields.1))
  }

  // ---------------------------------------------------------------------
  // Records
  // ---------------------------------------------------------------------

  /** One element of `results`. `source` and `error` are absent from the
      records that do not carry them. */
  datatype Record = Record(
    artist: string, title: string, isrc: Option<string>, source: Option<string>,
    composers: seq<string>, error: Option<string>)

  const MusoSource := "MUSO"

  /** The composers an error record carries. */
  const ErrorComposers := ["ERROR"]

  /** The two shapes a record takes: Muso's non-empty list of distinct
      names, or the error marker with the exception text. */
  predicate WellFormed(rec: Record) {
    && rec.isrc.None?
    && (|| (rec.source == Some(MusoSource) && rec.error.None? && rec.composers != []
            && NoDup(rec.composers) && "" !in rec.composers)
        || (rec.source.None? && rec.error.Some? && rec.composers == ErrorComposers))
  }

  /** The record one row adds to `results`, if any. */
  function RowRecord(api: Muso.Api, row: string): (r: Option<Record>)
    ensures r.Some? ==> WellFormed(r.value) && (r.value.artist, r.value.title) == ParseRow(row)
    ensures var found := Muso.FindMusoComposers(api, ParseRow(row).0, ParseRow(row).1);
      && (r.None? <==> found == Success([]))
      && (found.Failure? ==> r.Some? && r.value.error == Some(found.error))
      && (found.Success? && r.Some? ==> r.value.composers == found.value)
  {
    var fields := ParseRow(row);
    var artist := fields.0;
    var title := fields.1;
    match Muso.FindMusoComposers(api, artist, title)
    case Failure(e) => Some(Record(artist, title, None, None, ErrorComposers, Some(e)))
    case Success(composers) =>
      if |composers| > 0 then Some(Record(artist, title, None, Some(MusoSource), composers, None))
      else None
  }

  /** The `results` array the handler answers with: the rows are handled in
      order, each adding at most one record. */
  function Post(api: Muso.Api, rows: seq<string>): (r: seq<Record>)
    ensures |r| <= |rows|
    ensures Every(r, WellFormed)
  {
    var f := (row: string) => RowRecord(api, row);
    CollectEvery(rows, f, WellFormed);
    Collect(rows, f)
  }

  /** Rows are handled independently: the records of a concatenation are
      those of each part, in order. */
  lemma PostAppend(api: Muso.Api, xs: seq<string>, ys: seq<string>)
    ensures Post(api, xs + ys) == Post(api, xs) + Post(api, ys)
  {
    CollectAppend(xs, ys, (row: string) => RowRecord(api, row));
  }

  /** A failing row adds its error record, and the rows after it are still
      handled. */
  lemma ErrorRowContinues(api: Muso.Api, before: seq<string>, row: string, after: seq<string>)
    requires Muso.FindMusoComposers(api, ParseRow(row).0, ParseRow(row).1).Failure?
    ensures var e := Muso.FindMusoComposers(api, ParseRow(row).0, ParseRow(row).1).error;
      Post(api, before + [row] + after)
      == Post(api, before) + [Record(ParseRow(row).0, ParseRow(row).1, None, None, ErrorComposers, Some(e))] + Post(api, after)
  {
    PostAppend(api, before + [row], after);
    PostAppend(api, before, [row]);
    CollectSingle(row, (row: string) => RowRecord(api, row));
  }

  /** A row for which Muso finds no composers adds nothing. */
  lemma SilentRowSkipped(api: Muso.Api, before: seq<string>, row: string, after: seq<string>)
    requires Muso.FindMusoComposers(api, ParseRow(row).0, ParseRow(row).1) == Success([])
    ensures Post(api, before + [row] + after) == Post(api, before) + Post(api, after)
  {
    CollectSingle(row, (row: string) => RowRecord(api, row));
    assert Post(api, [row]) == [];
    PostAppend(api, before, [row]);
    assert Post(api, before + [row]) == Post(api, before);
    PostAppend(api, before + [row], after);
  }

  /** A row with composers adds exactly one Muso record holding them. */
  lemma ComposedRowRecorded(api: Muso.Api, row: string)
    requires Muso.FindMusoComposers(api, ParseRow(row).0, ParseRow(row).1).Success?
    requires Muso.FindMusoComposers(api, ParseRow(row).0, ParseRow(row).1).value != []
    ensures var found := Muso.FindMusoComposers(api, ParseRow(row).0, ParseRow(row).1);
      Post(api, [row]) == [Record(ParseRow(row).0, ParseRow(row).1, None, Some(MusoSource), found.value, None)]
  {
    CollectSingle(row, (row: string) => RowRecord(api, row));
  }
}
