/**
  The CSV serialiser of the inventory export (`exportToExcel`, src/utils/excelExport.ts):
  an empty-input check, a fixed 32-column header row, one 32-cell row per computer with a
  running index, cells escaped in the manner of section 2 of RFC 4180 (rules 6 and 7) with `;`
  as the delimiter, rows joined with `\n`, and a leading U+FEFF byte-order mark. Unlike rule 6,
  only a line feed counts as a line break: a cell holding a lone carriage return is written
  unquoted.
  The download of the text (Blob, anchor click, file name with today's date) is not modelled.
 */
module CsvExport {
  import opened Wrappers
  import opened Decimal
  import opened Computers

  const Delimiter: char := ';'
  const RowSeparator: char := '\n'
  const Bom: char := '\U{FEFF}'

  const Headers: seq<string> := [
    "№", "Цехы", "Отдел", "Пользователь", "Тип орг.техники", "IP адрес", "MAC адрес",
    "Номер пломбы", "Зав. склада", "Материнская плата", "Модель МП", "Процессор",
    "Поколение", "Частота", "HDD", "SSD", "Тип диска", "Тип RAM", "Размер RAM",
    "Видеокарта", "Операционная система", "Интернет", "Активен", "Дата добавления",
    "Дата изменения", "Пользователь изменения", "Принтеры", "Сканеры", "МФУ",
    "Веб-камеры", "Модели веб-камер", "Типы мониторов"]

  /** The locale renderings `new Date(t).toLocaleDateString('ru-RU')` and
      `new Date(t).toLocaleString('ru-RU')`, which depend on the time zone. */
  datatype Locale = Locale(dateText: string -> string, dateTimeText: string -> string)

  /** `value || ''` for an optional text field. */
  function OrEmpty(o: Option<string>): string {
    if o.Some? then o.value else ""
  }

  /** `ref?.name || ''` */
  function RefName(o: Option<Ref>): string {
    if o.Some? then o.value.name else ""
  }

  function YesNo(b: bool): string {
    if b then "Да" else "Нет"
  }

  /** `t ? render(t) : ''` */
  function DateCell(o: Option<string>, render: string -> string): string {
    if o.Some? && o.value != "" then render(o.value) else ""
  }

  /** `parts.join(sep)` */
  function Join(parts: seq<string>, sep: string): string {
    if |parts| == 0 then ""
    else if |parts| == 1 then parts[0]
    else parts[0] + sep + Join(parts[1..], sep)
  }

  function Names(refs: seq<Ref>): (r: seq<string>)
    ensures |r| == |refs| && forall i :: 0 <= i < |r| ==> r[i] == refs[i].name
  {
    if refs == [] then [] else [refs[0].name] + Names(refs[1..])
  }

  /** `list?.map(x => x.name).join(', ') || ''` */
  function NameList(o: Option<seq<Ref>>): string {
    if o.Some? then Join(Names(o.value), ", ") else ""
  }

  /** Columns 1-8: running number, placement, user and network identity. */
  function PlacementCells(item: Computer, index: nat): (cells: seq<string>)
    ensures |cells| == 8
  {
    [ NatToString(index + 1),
      RefName(item.department),
      RefName(item.section),
      OrEmpty(item.user),
      RefName(item.computerType),
      OrEmpty(item.ipAddress),
      OrEmpty(item.macAddress),
      OrEmpty(item.sealNumber) ]
  }

  /** Columns 9-21: warehouse manager, components and operating system. */
  function HardwareCells(item: Computer): (cells: seq<string>)
    ensures |cells| == 13
  {
    [ RefName(item.warehouseManager),
      RefName(item.motherboard),
      RefName(item.motherboardModel),
      RefName(item.cpu),
      RefName(item.generation),
      RefName(item.frequency),
      RefName(item.hdd),
      RefName(item.ssd),
      RefName(item.diskType),
      RefName(item.ramType),
      RefName(item.ramSize),
      RefName(item.gpu),
      OrEmpty(item.os) ]
  }

  /** Columns 22-26: flags, dates and the last editor. */
  function StatusCells(item: Computer, locale: Locale): (cells: seq<string>)
    ensures |cells| == 5
  {
    [ YesNo(item.internet),
      YesNo(item.isActive),
      DateCell(item.joinDate, locale.dateText),
      DateCell(item.historyDate, locale.dateTimeText),
      OrEmpty(item.historyUser) ]
  }

  /** Columns 27-32: the attached devices, each list as its names joined by `, `. */
  function PeripheralCells(item: Computer): (cells: seq<string>)
    ensures |cells| == 6
  {
    [ NameList(item.printers),
      NameList(item.scanners),
      NameList(item.mfps),
      NameList(item.webcamTypes),
      NameList(item.webcamModels),
      NameList(item.monitorTypes) ]
  }

  /** The row of record `item` at 0-based position `index`, before escaping (lines 46-79). */
  function RecordCells(item: Computer, index: nat, locale: Locale): (cells: seq<string>)
    ensures |cells| == 32
  {
    PlacementCells(item, index) + HardwareCells(item) + StatusCells(item, locale) + PeripheralCells(item)
  }

  /** `[headers, ...data.map((item, index) => [...])]` */
  function Table(data: seq<Computer>, locale: Locale): (t: seq<seq<string>>)
    ensures |t| == |data| + 1 && t[0] == Headers
    ensures forall i :: 0 <= i < |data| ==> t[i + 1] == RecordCells(data[i], i, locale)
    ensures forall i :: 0 <= i < |t| ==> |t[i]| == 32
  {
    [Headers] + seq(|data|, i requires 0 <= i < |data| => RecordCells(data[i], i, locale))
  }

  /** The index cell of data row `i` reads back as `i + 1`. */
  lemma IndexColumn(data: seq<Computer>, locale: Locale, i: nat)
    requires i < |data|
    ensures AllDigits(Table(data, locale)[i + 1][0])
    ensures DigitsValue(Table(data, locale)[i + 1][0]) == i + 1
  {
    assert RecordCells(data[i], i, locale)[0] == PlacementCells(data[i], i)[0];
    NatToStringRoundTrip(i + 1);
  }

  /** The two flag columns render `Да`/`Нет` under the headers `Интернет` and `Активен`. */
  lemma FlagColumns(item: Computer, index: nat, locale: Locale)
    ensures Headers[21] == "Интернет" && Headers[22] == "Активен"
    ensures RecordCells(item, index, locale)[21] == (if item.internet then "Да" else "Нет")
    ensures RecordCells(item, index, locale)[22] == (if item.isActive then "Да" else "Нет")
  {
    var cells := RecordCells(item, index, locale);
    assert cells[21] == StatusCells(item, locale)[0] && cells[22] == StatusCells(item, locale)[1];
  }

  /** Columns 2-8: a missing placement, user or network field is an empty cell, a present one
      its text (`x?.name || ''`, `x || ''`). */
  lemma PlacementColumns(item: Computer, index: nat, locale: Locale)
    ensures var cells := RecordCells(item, index, locale);
      && cells[1] == (if item.department.Some? then item.department.value.name else "")
      && cells[2] == (if item.section.Some? then item.section.value.name else "")
      && cells[3] == (if item.user.Some? then item.user.value else "")
      && cells[4] == (if item.computerType.Some? then item.computerType.value.name else "")
      && cells[5] == (if item.ipAddress.Some? then item.ipAddress.value else "")
      && cells[6] == (if item.macAddress.Some? then item.macAddress.value else "")
      && cells[7] == (if item.sealNumber.Some? then item.sealNumber.value else "")
  {
    var cells := RecordCells(item, index, locale);
    var group := PlacementCells(item, index);
    assert forall i :: 1 <= i < 8 ==> cells[i] == group[i];
  }

  /** The hardware cells sit at columns 9-21 of a record. */
  lemma HardwareCellsAt(item: Computer, index: nat, locale: Locale)
    ensures forall i :: 0 <= i < 13 ==> RecordCells(item, index, locale)[8 + i] == HardwareCells(item)[i]
  {
    var p, h := PlacementCells(item, index), HardwareCells(item);
    assert RecordCells(item, index, locale) == (p + h) + (StatusCells(item, locale) + PeripheralCells(item));
  }

  /** Columns 9-14: a missing warehouse manager or board component is an empty cell, a present
      one its name (`x?.name || ''`). */
  lemma BoardColumns(item: Computer, index: nat, locale: Locale)
    ensures var cells := RecordCells(item, index, locale);
      && cells[8] == (if item.warehouseManager.Some? then item.warehouseManager.value.name else "")
      && cells[9] == (if item.motherboard.Some? then item.motherboard.value.name else "")
      && cells[10] == (if item.motherboardModel.Some? then item.motherboardModel.value.name else "")
      && cells[11] == (if item.cpu.Some? then item.cpu.value.name else "")
      && cells[12] == (if item.generation.Some? then item.generation.value.name else "")
      && cells[13] == (if item.frequency.Some? then item.frequency.value.name else "")
  {
    HardwareCellsAt(item, index, locale);
  }

  /** Columns 15-21: a missing storage, memory or graphics component or operating system is an
      empty cell, a present one its name. */
  lemma StorageColumns(item: Computer, index: nat, locale: Locale)
    ensures var cells := RecordCells(item, index, locale);
      && cells[14] == (if item.hdd.Some? then item.hdd.value.name else "")
      && cells[15] == (if item.ssd.Some? then item.ssd.value.name else "")
      && cells[16] == (if item.diskType.Some? then item.diskType.value.name else "")
      && cells[17] == (if item.ramType.Some? then item.ramType.value.name else "")
      && cells[18] == (if item.ramSize.Some? then item.ramSize.value.name else "")
      && cells[19] == (if item.gpu.Some? then item.gpu.value.name else "")
      && cells[20] == (if item.os.Some? then item.os.value else "")
  {
    HardwareCellsAt(item, index, locale);
  }

  /** Columns 24-26: a missing or empty date is an empty cell, a present one its locale rendering;
      a missing last editor is an empty cell. */
  lemma StatusColumns(item: Computer, index: nat, locale: Locale)
    ensures var cells := RecordCells(item, index, locale);
      && cells[23] == (if item.joinDate.Some? && item.joinDate.value != "" then locale.dateText(item.joinDate.value) else "")
      && cells[24] == (if item.historyDate.Some? && item.historyDate.value != "" then locale.dateTimeText(item.historyDate.value) else "")
      && cells[25] == (if item.historyUser.Some? then item.historyUser.value else "")
  {
    var cells := RecordCells(item, index, locale);
    var group := StatusCells(item, locale);
    assert forall i :: 2 <= i < 5 ==> cells[21 + i] == group[i];
  }

  /** The headers above the columns of `PlacementColumns`, `BoardColumns`, `StorageColumns` and `StatusColumns`. */
  lemma OptionalColumnHeaders()
    ensures Headers[1] == "Цехы" && Headers[3] == "Пользователь" && Headers[5] == "IP адрес"
    ensures Headers[8] == "Зав. склада" && Headers[11] == "Процессор" && Headers[20] == "Операционная система"
    ensures Headers[23] == "Дата добавления" && Headers[24] == "Дата изменения" && Headers[25] == "Пользователь изменения"
  {
  }

  // ---- Escaping ----

  /** `s.replace(/"/g, '""')` */
  function DoubleQuotes(s: string): string {
    if s == [] then []
    else (if s[0] == '"' then "\"\"" else [s[0]]) + DoubleQuotes(s[1..])
  }

  /** Doubling keeps the set of characters, and leaves a text without quotes alone. */
  lemma {:induction false} DoubleQuotesChars(s: string)
    ensures forall c :: c in DoubleQuotes(s) <==> c in s
    ensures '"' !in s ==> DoubleQuotes(s) == s
  {
    if s != [] {
      DoubleQuotesChars(s[1..]);
      assert s == [s[0]] + s[1..];
    }
  }

  predicate NeedsQuotes(s: string) {
    ',' in s || ';' in s || '\n' in s || '"' in s
  }

  /** The escaping of one cell: quotes doubled; the whole wrapped in quotes when the cell holds
      a comma, a semicolon, a line feed or a quote. */
  function Escape(cell: string): (r: string)
    ensures NeedsQuotes(cell) ==> r == "\"" + DoubleQuotes(cell) + "\""
    ensures !NeedsQuotes(cell) ==> r == cell
  {
    DoubleQuotesChars(cell);
    var cellStr := DoubleQuotes(cell);
    if NeedsQuotes(cellStr) then "\"" + cellStr + "\"" else cellStr
  }

  /** Halves every `""`. */
  function Undouble(s: string): string {
    if |s| >= 2 && s[0] == '"' && s[1] == '"' then "\"" + Undouble(s[2..])
    else if s == [] then []
    else [s[0]] + Undouble(s[1..])
  }

  /** Removes outer quotes, then halves `""`. */
  function Unescape(s: string): string {
    if |s| >= 2 && s[0] == '"' && s[|s| - 1] == '"' then Undouble(s[1..|s| - 1]) else s
  }

  lemma {:induction false} UndoubleDoubleQuotes(s: string)
    ensures Undouble(DoubleQuotes(s)) == s
  {
    if s != [] {
      UndoubleDoubleQuotes(s[1..]);
      var d := DoubleQuotes(s);
      if s[0] == '"' {
        assert d == "\"\"" + DoubleQuotes(s[1..]);
        assert d[2..] == DoubleQuotes(s[1..]);
      } else {
        assert d == [s[0]] + DoubleQuotes(s[1..]);
        assert d[1..] == DoubleQuotes(s[1..]);
      }
    }
  }

  /** Escaping is reversible, and a cell left unquoted holds no delimiter, line feed or quote. */
  lemma EscapeRoundTrip(cell: string)
    ensures Unescape(Escape(cell)) == cell
    ensures !NeedsQuotes(cell) ==> Delimiter !in Escape(cell) && RowSeparator !in Escape(cell) && '"' !in Escape(cell)
  {
    if NeedsQuotes(cell) {
      var e := Escape(cell);
      assert e[1..|e| - 1] == DoubleQuotes(cell);
      UndoubleDoubleQuotes(cell);
    } else if |cell| >= 2 {
      assert cell[0] in cell;
    }
  }

  /** A cell holding a comma is written quoted. */
  lemma CommaIsQuoted(cell: string)
    requires ',' in cell
    ensures var e := Escape(cell); |e| >= 2 && e[0] == '"' && e[|e| - 1] == '"'
  {
  }

  // ---- Joining ----

  function EscapeAll(cells: seq<string>): (r: seq<string>)
    ensures |r| == |cells| && forall i :: 0 <= i < |r| ==> r[i] == Escape(cells[i])
  {
    if cells == [] then [] else [Escape(cells[0])] + EscapeAll(cells[1..])
  }

  /** `row.map(escape).join(';')` */
  function EncodeRow(cells: seq<string>): string {
    Join(EscapeAll(cells), [Delimiter])
  }

  function EncodeRows(t: seq<seq<string>>): (r: seq<string>)
    ensures |r| == |t| && forall i :: 0 <= i < |r| ==> r[i] == EncodeRow(t[i])
  {
    if t == [] then [] else [EncodeRow(t[0])] + EncodeRows(t[1..])
  }

  /** `rows.join('\n')` */
  function EncodeTable(t: seq<seq<string>>): string {
    Join(EncodeRows(t), [RowSeparator])
  }

  datatype ExportError = NoData

  /** The text `exportToExcel` hands to the download: rejected for an empty input,
      otherwise the byte-order mark followed by the encoded table. */
  function ExportCsv(data: seq<Computer>, locale: Locale): (r: Result<string, ExportError>)
    ensures r.Failure? <==> data == []
    ensures r.Success? ==> |r.value| > 0 && r.value[0] == Bom && r.value[1..] == EncodeTable(Table(data, locale))
  {
    if |data| == 0 then Failure(NoData)
    else
      var text := [Bom] + EncodeTable(Table(data, locale));
      assert text[1..] == EncodeTable(Table(data, locale));
      Success(text)
  }
}
