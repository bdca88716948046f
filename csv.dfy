/** The CSV reader of rizzerv.js: `parseCSVLine` splits one line on the
    commas that stand outside double quotes, and `parseCSV` turns the
    data lines of the file into restaurant records.

    The grammar is the one of section 2 of RFC 4180 without its escaped
    quote: every `"` flips the in-quotes flag and is dropped, so `""`
    never stands for a literal quote. */
module Csv {
  import opened Seqs
  import opened Text

  /** One row of the restaurant table: columns 0, 1, 3, 4, 5 and 9. */
  datatype Restaurant = Restaurant(
    name: String,
    photo1: String,
    descriptionShort: String,
    neighborhood: String,
    source1: String,
    category: String)

  /** Number of columns a line needs to become a record. */
  const MinFields := 10

  /** The fields a comma-free, quote-free prefix extends: it lengthens the first one. */
  function Prepend(f: String, cells: seq<String>): seq<String>
    requires cells != []
  {
    [f + cells[0]] + cells[1..]
  }

  lemma PrependEmpty(cells: seq<String>)
    requires cells != []
    ensures Prepend([], cells) == cells
  {
    assert [] + cells[0] == cells[0];
  }

  lemma PrependTwice(f: String, g: String, cells: seq<String>)
    requires cells != []
    ensures Prepend(f, Prepend(g, cells)) == Prepend(f + g, cells)
  {
    assert Prepend(g, cells)[1..] == cells[1..];
    assert f + (g + cells[0]) == (f + g) + cells[0];
  }

  /** The untrimmed fields of `s` when scanning starts with the in-quotes
      flag set to `inQuotes`: quotes flip the flag and vanish, a comma
      outside quotes ends a field, every other character belongs to the
      current field. */
  function Cells(s: String, inQuotes: bool): (r: seq<String>)
    ensures r != []
  {
    if s == [] then [[]]
    else if s[0] == '"' then Cells(s[1..], !inQuotes)
    else if s[0] == ',' && !inQuotes then [[]] + Cells(s[1..], inQuotes)
    else Prepend([s[0]], Cells(s[1..], inQuotes))
  }

  /** Quotes never reach a cell. */
  lemma {:induction false} CellsQuoteFree(s: String, inQuotes: bool)
    ensures forall i :: 0 <= i < |Cells(s, inQuotes)| ==> '"' !in Cells(s, inQuotes)[i]
  {
    if s != [] {
      var q := if s[0] == '"' then !inQuotes else inQuotes;
      CellsQuoteFree(s[1..], q);
      var rest := Cells(s[1..], q);
      if s[0] != '"' && !(s[0] == ',' && !inQuotes) {
        assert forall c :: c in [s[0]] + rest[0] ==> c == s[0] || c in rest[0];
      }
    }
  }

  /** The fields of a line as `parseCSVLine` returns them: the cells, each trimmed. */
  function Fields(line: String): (r: seq<String>)
    ensures |r| == |Cells(line, false)|
  {
    TrimAll(Cells(line, false))
  }

  /** `map(f => f.trim())`. */
  function TrimAll(cells: seq<String>): (r: seq<String>)
    ensures |r| == |cells|
  {
    seq(|cells|, i requires 0 <= i < |cells| => Trim(cells[i]))
  }

  /** Each field is its cell with whitespace stripped from the two ends only. */
  lemma TrimAllTrims(cells: seq<String>)
    ensures |TrimAll(cells)| == |cells|
    ensures forall i :: 0 <= i < |cells| ==>
      IsTrimmed(TrimAll(cells)[i]) && StripsEnds(cells[i], TrimAll(cells)[i], IsSpace)
  {
  }

  /** One field per cell, every field trimmed and free of double quotes. */
  lemma FieldsClean(line: String)
    ensures |Fields(line)| == |Cells(line, false)|
    ensures forall i :: 0 <= i < |Fields(line)| ==> IsTrimmed(Fields(line)[i]) && '"' !in Fields(line)[i]
  {
    var cells := Cells(line, false);
    CellsQuoteFree(line, false);
    forall i | 0 <= i < |cells| ensures '"' !in Fields(line)[i] {
      assert Fields(line)[i] == Trim(cells[i]);
    }
  }

  /** The in-quotes flag just before position `i`: an odd number of quotes precede it. */
  predicate InQuotesAt(line: String, i: nat)
    requires i <= |line|
  {
    multiset(line[..i])['"'] % 2 == 1
  }

  /** Positions of the commas that separate fields. */
  function SeparatorsBefore(line: String, n: nat): set<nat>
    requires n <= |line|
  {
    set i: nat | i < n && line[i] == ',' && !InQuotesAt(line, i)
  }

  /** The text of `s` with every double quote removed. */
  function Unquote(s: String): String
  {
    if s == [] then []
    else if s[0] == '"' then Unquote(s[1..])
    else [s[0]] + Unquote(s[1..])
  }

  /** Reading one more character flips the flag exactly on a quote. */
  lemma InQuotesStep(line: String, i: nat)
    requires i < |line|
    ensures InQuotesAt(line, i + 1) == (InQuotesAt(line, i) != (line[i] == '"'))
  {
    assert line[..i + 1] == line[..i] + [line[i]];
  }

  /** Reading one more character adds it to the separators exactly when it is an unquoted comma. */
  lemma SeparatorsStep(line: String, i: nat)
    requires i < |line|
    ensures SeparatorsBefore(line, i + 1) ==
      SeparatorsBefore(line, i) + (if line[i] == ',' && !InQuotesAt(line, i) then {i} else {})
    ensures i !in SeparatorsBefore(line, i)
  {
  }

  /** What `parseCSVLine` has produced after reading `line[..i]`: the closed
      fields `raw`, the open `field` and the flag, which together with the
      cells of the rest of the line make up the cells of the whole line. */
  predicate Scanned(line: String, i: nat, inQuotes: bool, field: String, raw: seq<String>)
    requires i <= |line|
  {
    raw + Prepend(field, Cells(line[i..], inQuotes)) == Cells(line, false)
  }

  /** One character of the scan keeps `Scanned`. */
  lemma ScanStep(line: String, i: nat, inQuotes: bool, field: String, raw: seq<String>)
    requires i < |line| && Scanned(line, i, inQuotes, field, raw)
    ensures line[i] == '"' ==> Scanned(line, i + 1, !inQuotes, field, raw)
    ensures line[i] == ',' && !inQuotes ==> Scanned(line, i + 1, inQuotes, [], raw + [field])
    ensures line[i] != '"' && !(line[i] == ',' && !inQuotes) ==>
      Scanned(line, i + 1, inQuotes, field + [line[i]], raw)
  {
    var c := line[i];
    assert line[i..][1..] == line[i + 1..];
    if c == '"' {
    } else if c == ',' && !inQuotes {
      var cells := Cells(line[i + 1..], inQuotes);
      PrependEmpty(cells);
      assert Prepend(field, [[]] + cells) == [field + []] + cells;
      assert field + [] == field;
      assert Cells(line[i..], inQuotes) == [[]] + cells;
      assert (raw + [field]) + cells == raw + ([field] + cells);
    } else {
      var cells := Cells(line[i + 1..], inQuotes);
      PrependTwice(field, [c], cells);
    }
  }

  /** At the end of the line the open field is the last cell. */
  lemma ScanDone(line: String, inQuotes: bool, field: String, raw: seq<String>)
    requires Scanned(line, |line|, inQuotes, field, raw)
    ensures raw + [field] == Cells(line, false)
  {
    assert line[|line|..] == [];
    assert field + [] == field;
    assert Prepend(field, [[]]) == [field];
  }

  /** The loop state of `parseCSVLine` after reading `line[..i]`: the flag
      is the parity of the quotes read, `raw` holds one field per separator
      read, and the scan agrees with the cells of the line. */
  predicate ScanState(line: String, i: nat, inQuotes: bool, field: String, raw: seq<String>)
  {
    i <= |line| &&
    inQuotes == InQuotesAt(line, i) &&
    |raw| == |SeparatorsBefore(line, i)| &&
    Scanned(line, i, inQuotes, field, raw)
  }

  /** Each branch of the loop body keeps `ScanState`. */
  lemma ScanStateStep(line: String, i: nat, inQuotes: bool, field: String, raw: seq<String>)
    requires i < |line| && ScanState(line, i, inQuotes, field, raw)
    ensures line[i] == '"' ==> ScanState(line, i + 1, !inQuotes, field, raw)
    ensures line[i] == ',' && !inQuotes ==> ScanState(line, i + 1, inQuotes, [], raw + [field])
    ensures line[i] != '"' && !(line[i] == ',' && !inQuotes) ==>
      ScanState(line, i + 1, inQuotes, field + [line[i]], raw)
  {
    InQuotesStep(line, i);
    SeparatorsStep(line, i);
    ScanStep(line, i, inQuotes, field, raw);
  }

  /** parseCSVLine: scans the line once, keeping the in-quotes flag and the
      field being built, then trims every field. */
  method ParseLine(line: String) returns (fields: seq<String>)
    ensures fields == Fields(line)
    ensures |fields| == |SeparatorsBefore(line, |line|)| + 1
  {
    var inQuotes := false;
    var field: String := [];
    var raw: seq<String> := [];
    var i := 0;
    assert line[0..] == line;
    PrependEmpty(Cells(line, false));
    while i < |line|
      invariant ScanState(line, i, inQuotes, field, raw)
    {
      var c := line[i];
      ScanStateStep(line, i, inQuotes, field, raw);
      if c == '"' {
        inQuotes := !inQuotes;
      } else if c == ',' && !inQuotes {
        raw := raw + [field];
        field := [];
      } else {
        field := field + [c];
      }
      i := i + 1;
    }
    ScanDone(line, inQuotes, field, raw);
    raw := raw + [field];
    fields := TrimAll(raw);
  }

  /** No character is lost: the cells joined again with commas are the line
      without its quotes, so a comma between quotes stays in its field. */
  lemma {:induction false} CellsJoin(s: String, inQuotes: bool)
    ensures Join(Cells(s, inQuotes), ",") == Unquote(s)
  {
    if s != [] {
      var q := if s[0] == '"' then !inQuotes else inQuotes;
      CellsJoin(s[1..], q);
      var rest := Cells(s[1..], q);
      if s[0] == '"' {
      } else if s[0] == ',' && !inQuotes {
        assert ([[]] + rest)[1..] == rest;
      } else {
        JoinConsHead(s[0], rest[0], rest[1..], ",");
        assert [rest[0]] + rest[1..] == rest;
      }
    }
  }

  /** A head without quotes and commas only lengthens the first cell, whatever the flag. */
  lemma {:induction false} CellsPlainPrefix(x: String, t: String, inQuotes: bool)
    requires '"' !in x && ',' !in x
    ensures Cells(x + t, inQuotes) == Prepend(x, Cells(t, inQuotes))
  {
    if x == [] {
      assert x + t == t;
      var c := Cells(t, inQuotes);
      assert [] + c[0] == c[0];
      assert [c[0]] + c[1..] == c;
    } else {
      CellsPlainPrefix(x[1..], t, inQuotes);
      assert (x + t)[1..] == x[1..] + t;
      assert (x + t)[0] == x[0];
      var c := Cells(t, inQuotes);
      assert [x[0]] + (x[1..] + c[0]) == x + c[0];
    }
  }

  /** Between quotes a comma is an ordinary character: a quote-free head
      only lengthens the first cell, commas included. */
  lemma {:induction false} CellsQuotedSpan(x: String, t: String)
    requires '"' !in x
    ensures Cells(x + t, true) == Prepend(x, Cells(t, true))
  {
    if x == [] {
      assert x + t == t;
      PrependEmpty(Cells(t, true));
    } else {
      CellsQuotedSpan(x[1..], t);
      assert (x + t)[1..] == x[1..] + t;
      assert (x + t)[0] == x[0];
      PrependTwice([x[0]], x[1..], Cells(t, true));
      assert [x[0]] + x[1..] == x;
    }
  }

  /** A quoted field keeps its commas: `"x"` followed by the rest of the
      line lengthens the first cell by `x`. */
  lemma CellsQuotedField(x: String, t: String)
    requires '"' !in x
    ensures Cells("\"" + x + "\"" + t, false) == Prepend(x, Cells(t, false))
  {
    var s := "\"" + x + "\"" + t;
    assert s[1..] == x + ("\"" + t);
    CellsQuotedSpan(x, "\"" + t);
    assert ("\"" + t)[1..] == t;
  }

  /** The line `a,"b,c"` has the two cells `a` and `b,c`. */
  lemma QuotedCommaExample()
    ensures Cells("a,\"b,c\"", false) == ["a", "b,c"]
  {
    var line := "a,\"b,c\"";
    var quoted := "\"b,c\"";
    CellsQuotedField("b,c", "");
    assert "\"" + "b,c" + "\"" + "" == quoted;
    assert Cells("", false) == [[]];
    assert "b,c" + [] == "b,c";
    assert Cells(quoted, false) == ["b,c"];
    assert line[1..] == "," + quoted;
    assert ("," + quoted)[1..] == quoted;
    assert Cells(line[1..], false) == [[], "b,c"];
    assert line[0] == 'a' && [line[0]] == "a";
    assert Cells(line, false) == Prepend("a", [[], "b,c"]);
    assert "a" + [] == "a";
  }

  /** The record `parseCSV` builds from the fields of a long enough line. */
  function ToRestaurant(f: seq<String>): (r: Restaurant)
    requires |f| >= MinFields
    ensures IsTrimmed(r.name) && IsTrimmed(r.photo1) && IsTrimmed(r.descriptionShort)
    ensures IsTrimmed(r.neighborhood) && IsTrimmed(r.source1) && IsTrimmed(r.category)
    ensures IsTrimmed(f[0]) ==> r.name == f[0]
    ensures IsTrimmed(f[9]) ==> r.category == f[9]
  {
    Restaurant(Trim(f[0]), Trim(f[1]), Trim(f[3]), Trim(f[4]), Trim(f[5]), Trim(f[9]))
  }

  /** The record a data line contributes: none when it has fewer than ten fields. */
  function LineRecord(line: String): (r: seq<Restaurant>)
    ensures |r| <= 1
  {
    var f := Fields(line);
    if |f| >= MinFields then [ToRestaurant(f)] else []
  }

  /** The records of some data lines, in line order. */
  function Records(lines: seq<String>): (r: seq<Restaurant>)
    ensures |r| <= |lines|
  {
    FlatMapAtMostOne(lines, LineRecord);
    FlatMap(lines, LineRecord)
  }

  /** The lines of the trimmed text after the header line. */
  function DataLines(text: String): (r: seq<String>)
    ensures |r| + 1 == |Split(Trim(text), '\n')|
  {
    Split(Trim(text), '\n')[1..]
  }

  /** There are as many data lines as line feeds in the trimmed text, and
      none of them holds a line feed. */
  lemma DataLinesCount(text: String)
    ensures |DataLines(text)| == multiset(Trim(text))['\n']
    ensures forall i :: 0 <= i < |DataLines(text)| ==> '\n' !in DataLines(text)[i]
  {
    var pieces := Split(Trim(text), '\n');
    SplitPieces(Trim(text), '\n');
    assert forall i :: 0 <= i < |pieces| - 1 ==> DataLines(text)[i] == pieces[i + 1];
  }

  /** Records distribute over concatenation of line lists: order is kept. */
  lemma RecordsAppend(a: seq<String>, b: seq<String>)
    ensures Records(a + b) == Records(a) + Records(b)
  {
    FlatMapAppend(a, b, LineRecord);
  }

  /** A line with fewer than ten fields contributes nothing, wherever it stands. */
  lemma DropsShortLine(a: seq<String>, line: String, b: seq<String>)
    requires |Fields(line)| < MinFields
    ensures Records(a + [line] + b) == Records(a + b)
  {
    FlatMapSkip(a, line, b, LineRecord);
  }

  /** When every line is long enough, record i comes from line i. */
  lemma RecordsOfLongLines(lines: seq<String>)
    requires forall i :: 0 <= i < |lines| ==> |Fields(lines[i])| >= MinFields
    ensures |Records(lines)| == |lines|
    ensures forall i :: 0 <= i < |lines| ==> Records(lines)[i] == ToRestaurant(Fields(lines[i]))
  {
    FlatMapExactlyOne(lines, LineRecord);
  }

  /** The name and category of every record are trimmed and free of double quotes. */
  lemma RecordsClean(lines: seq<String>, r: Restaurant)
    requires r in Records(lines)
    ensures IsTrimmed(r.name) && '"' !in r.name
    ensures IsTrimmed(r.category) && '"' !in r.category
  {
    FlatMapMember(lines, LineRecord, r);
    var line :| line in lines && r in LineRecord(line);
    LineRecordClean(line, r);
  }

  /** The second `trim` of parseCSV changes nothing: the record holds
      columns 0, 1, 3, 4, 5 and 9 of the line exactly as parseCSVLine returned them. */
  lemma RecordOfFields(line: String)
    requires |Fields(line)| >= MinFields
    ensures var f := Fields(line);
      ToRestaurant(f) == Restaurant(f[0], f[1], f[3], f[4], f[5], f[9])
  {
    FieldsClean(line);
  }

  lemma LineRecordClean(line: String, r: Restaurant)
    requires r in LineRecord(line)
    ensures IsTrimmed(r.name) && '"' !in r.name
    ensures IsTrimmed(r.category) && '"' !in r.category
  {
    FieldsClean(line);
  }

  /** One more line adds that line's record, or nothing when it is short. */
  lemma RecordsSnoc(lines: seq<String>, i: nat, fields: seq<String>)
    requires i < |lines| && fields == Fields(lines[i])
    ensures Records(lines[..i + 1]) == Records(lines[..i]) +
      (if |fields| >= MinFields then [ToRestaurant(fields)] else [])
  {
    assert lines[..i + 1] == lines[..i] + [lines[i]];
    FlatMapSnoc(lines[..i], lines[i], LineRecord);
    assert LineRecord(lines[i]) == if |fields| >= MinFields then [ToRestaurant(fields)] else [];
  }

  /** parseCSV: trims the text, splits it into lines, drops the header and
      keeps a record for every line with at least ten fields. */
  method ParseCsv(text: String) returns (result: seq<Restaurant>)
    ensures result == Records(DataLines(text))
    ensures |result| <= |DataLines(text)|
  {
    var lines := DataLines(text);
    result := [];
    var i := 0;
    while i < |lines|
      invariant 0 <= i <= |lines|
      invariant result == Records(lines[..i])
    {
      var fields := ParseLine(lines[i]);
      RecordsSnoc(lines, i, fields);
      if |fields| >= MinFields {
        result := result + [ToRestaurant(fields)];
      }
      i := i + 1;
    }
    assert lines[..i] == lines;
  }
}
