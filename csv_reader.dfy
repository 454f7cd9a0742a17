/**
  A reference reader for the export's text: it splits on `;` and `\n` outside quotes, undoes
  the quote doubling inside quoted cells and strips the byte-order mark. The round-trip lemmas
  show that the export loses nothing: reading the text back gives the table it was made from.
 */
module CsvReader {
  import opened Wrappers
  import opened CsvExport
  import opened Computers

  predicate EndsField(rest: string) {
    rest == [] || rest[0] == Delimiter || rest[0] == RowSeparator
  }

  /** Reads the body of a quoted cell up to its closing quote: its decoded text and what follows. */
  function ReadQuoted(s: string): (r: Option<(string, string)>)
    ensures r.Some? ==> |r.value.1| < |s|
    decreases |s|
  {
    if s == [] then None
    else if s[0] == '"' then
      if |s| >= 2 && s[1] == '"' then
        match ReadQuoted(s[2..])
        case None => None
        case Some((text, rest)) => Some(("\"" + text, rest))
      else Some(("", s[1..]))
    else
      match ReadQuoted(s[1..])
      case None => None
      case Some((text, rest)) => Some(([s[0]] + text, rest))
  }

  /** Reads an unquoted cell: everything up to the next delimiter or line feed. */
  function ReadUnquoted(s: string): (r: (string, string))
    ensures r.0 + r.1 == s && EndsField(r.1)
  {
    if EndsField(s) then ("", s)
    else
      var (text, rest) := ReadUnquoted(s[1..]);
      assert s == [s[0]] + s[1..];
      ([s[0]] + text, rest)
  }

  function ReadField(s: string): (r: Option<(string, string)>)
    ensures r.Some? ==> |r.value.1| <= |s| && EndsField(r.value.1)
  {
    if s != [] && s[0] == '"' then
      match ReadQuoted(s[1..])
      case None => None
      case Some((text, rest)) => if EndsField(rest) then Some((text, rest)) else None
    else Some(ReadUnquoted(s))
  }

  /** Reads the cells of one line; what follows is empty or starts with a line feed. */
  function ReadRow(s: string): (r: Option<(seq<string>, string)>)
    ensures r.Some? ==> |r.value.1| <= |s| && (r.value.1 == [] || r.value.1[0] == RowSeparator)
    decreases |s|
  {
    match ReadField(s)
    case None => None
    case Some((cell, rest)) =>
      if rest != [] && rest[0] == Delimiter then
        match ReadRow(rest[1..])
        case None => None
        case Some((cells, after)) => Some(([cell] + cells, after))
      else Some(([cell], rest))
  }

  function ReadRows(s: string): Option<seq<seq<string>>>
    decreases |s|
  {
    match ReadRow(s)
    case None => None
    case Some((row, rest)) =>
      if rest == [] then Some([row])
      else
        match ReadRows(rest[1..])
        case None => None
        case Some(rows) => Some([row] + rows)
  }

  /** Reads a whole export: the byte-order mark, then the lines. */
  function ReadDocument(text: string): Option<seq<seq<string>>> {
    if |text| > 0 && text[0] == Bom then ReadRows(text[1..]) else None
  }

  lemma ReadQuotedDoubled(tail: string)
    ensures ReadQuoted("\"\"" + tail) ==
      match ReadQuoted(tail)
      case None => None
      case Some((text, rest)) => Some(("\"" + text, rest))
  {
    assert ("\"\"" + tail)[2..] == tail;
  }

  lemma ReadQuotedPlain(c: char, tail: string)
    requires c != '"'
    ensures ReadQuoted([c] + tail) ==
      match ReadQuoted(tail)
      case None => None
      case Some((text, rest)) => Some(([c] + text, rest))
  {
    assert ([c] + tail)[1..] == tail;
  }

  lemma ReadQuotedClosing(rest: string)
    requires EndsField(rest)
    ensures ReadQuoted("\"" + rest) == Some(("", rest))
  {
    assert ("\"" + rest)[1..] == rest;
  }

  lemma {:induction false} QuotedRoundTrip(cell: string, rest: string)
    requires EndsField(rest)
    ensures ReadQuoted(DoubleQuotes(cell) + "\"" + rest) == Some((cell, rest))
  {
    if cell == [] {
      assert DoubleQuotes(cell) + "\"" + rest == "\"" + rest;
      ReadQuotedClosing(rest);
    } else {
      QuotedRoundTrip(cell[1..], rest);
      var tail := DoubleQuotes(cell[1..]) + "\"" + rest;
      if cell[0] == '"' {
        assert DoubleQuotes(cell) + "\"" + rest == "\"\"" + tail;
        ReadQuotedDoubled(tail);
        assert "\"" + cell[1..] == cell;
      } else {
        assert DoubleQuotes(cell) + "\"" + rest == [cell[0]] + tail;
        ReadQuotedPlain(cell[0], tail);
        assert [cell[0]] + cell[1..] == cell;
      }
    }
  }

  lemma {:induction false} UnquotedRoundTrip(cell: string, rest: string)
    requires Delimiter !in cell && RowSeparator !in cell
    requires EndsField(rest)
    ensures ReadUnquoted(cell + rest) == (cell, rest)
  {
    if cell != [] {
      assert cell[0] in cell;
      UnquotedRoundTrip(cell[1..], rest);
      assert (cell + rest)[1..] == cell[1..] + rest;
      assert [cell[0]] + cell[1..] == cell;
    } else {
      assert cell + rest == rest;
    }
  }

  lemma FieldRoundTrip(cell: string, rest: string)
    requires EndsField(rest)
    ensures ReadField(Escape(cell) + rest) == Some((cell, rest))
  {
    EscapeRoundTrip(cell);
    var s := Escape(cell) + rest;
    if NeedsQuotes(cell) {
      assert s == "\"" + (DoubleQuotes(cell) + "\"" + rest);
      assert s[1..] == DoubleQuotes(cell) + "\"" + rest;
      QuotedRoundTrip(cell, rest);
    } else {
      UnquotedRoundTrip(cell, rest);
      if cell != [] {
        assert cell[0] in cell;
        assert s[0] == cell[0];
      }
    }
  }

  lemma {:induction false} RowRoundTrip(cells: seq<string>, rest: string)
    requires |cells| > 0
    requires rest == [] || rest[0] == RowSeparator
    ensures ReadRow(EncodeRow(cells) + rest) == Some((cells, rest))
  {
    var e := EscapeAll(cells);
    if |cells| == 1 {
      assert EncodeRow(cells) == Escape(cells[0]);
      FieldRoundTrip(cells[0], rest);
      assert cells == [cells[0]];
    } else {
      assert e[1..] == EscapeAll(cells[1..]);
      var tail := EncodeRow(cells[1..]) + rest;
      assert EncodeRow(cells) + rest == Escape(cells[0]) + ([Delimiter] + tail);
      FieldRoundTrip(cells[0], [Delimiter] + tail);
      assert ([Delimiter] + tail)[1..] == tail;
      RowRoundTrip(cells[1..], rest);
      assert [cells[0]] + cells[1..] == cells;
    }
  }

  lemma {:induction false} RowsRoundTrip(t: seq<seq<string>>)
    requires |t| > 0
    requires forall i :: 0 <= i < |t| ==> |t[i]| > 0
    ensures ReadRows(EncodeTable(t)) == Some(t)
  {
    var e := EncodeRows(t);
    if |t| == 1 {
      assert EncodeTable(t) == EncodeRow(t[0]);
      RowRoundTrip(t[0], []);
      assert EncodeRow(t[0]) + [] == EncodeRow(t[0]);
      assert t == [t[0]];
    } else {
      assert e[1..] == EncodeRows(t[1..]);
      var tail := EncodeTable(t[1..]);
      assert EncodeTable(t) == EncodeRow(t[0]) + ([RowSeparator] + tail);
      RowRoundTrip(t[0], [RowSeparator] + tail);
      assert ([RowSeparator] + tail)[1..] == tail;
      RowsRoundTrip(t[1..]);
      assert [t[0]] + t[1..] == t;
    }
  }

  /** Reading an export back yields the header row followed by one 32-cell row per record. */
  lemma ExportRoundTrip(data: seq<Computer>, locale: Locale)
    requires data != []
    ensures ExportCsv(data, locale).Success?
    ensures ReadDocument(ExportCsv(data, locale).value) == Some(Table(data, locale))
  {
    RowsRoundTrip(Table(data, locale));
  }
}
