/** The CSV export: a fixed header line and one line per extracted invoice, joined
    with line feeds. String fields are quoted with embedded quotes doubled (section 2,
    rule 7 of RFC 4180); the amount is written bare. The RFC 4180 reader at the end of
    the module is used to state the round trip. */
module Csv {
  import opened Wrappers
  import opened Invoice

  const Quote: char := '"'

  /** `parts.join(sep)`: the parts with one separator between neighbours. */
  function JoinWith(sep: char, parts: seq<string>): string {
    if |parts| == 0 then []
    else if |parts| == 1 then parts[0]
    else parts[0] + [sep] + JoinWith(sep, parts[1..])
  }

  /** The column names, in order. */
  const HeaderNames: seq<string> := ["FileName", "InvoiceNumber", "VendorName", "InvoiceDate", "TotalAmount"]

  /** The header line: the column names joined with commas, unquoted. */
  const Header: string := JoinWith(',', HeaderNames)

  /** Every quote of `t` is the first of a pair of quotes, reading left to right. */
  predicate QuotesPaired(t: string)
    decreases |t|
  {
    if |t| == 0 then true
    else if t[0] == Quote then |t| >= 2 && t[1] == Quote && QuotesPaired(t[2..])
    else QuotesPaired(t[1..])
  }

  /** `s.replace(/"/g, '""')`: every quote doubled, every other character kept. */
  function EscapeQuotes(s: string): (r: string)
    ensures |r| >= |s|
    ensures QuotesPaired(r)
    ensures Quote !in s ==> r == s
    decreases |s|
  {
    if |s| == 0 then []
    else
      var rest := EscapeQuotes(s[1..]);
      var head := if s[0] == Quote then [Quote, Quote] else [s[0]];
      assert (head + rest)[|head|..] == rest;
      head + rest
  }

  /** The text a template literal gives an optionally chained field: the string
      itself, or `undefined` when the field is missing. */
  function TemplateText(v: Option<string>): (t: string)
    ensures v.Some? ==> t == v.value
    ensures v.None? ==> t == "undefined"
  {
    match v
    case Some(s) => s
    case None => "undefined"
  }

  /** A string field as written: quoted, with embedded quotes doubled. */
  function QuoteField(v: Option<string>): (r: string)
    ensures |r| >= 2 && r[0] == Quote && r[|r| - 1] == Quote
    ensures QuotesPaired(r[1..|r| - 1])
  {
    var r := [Quote] + EscapeQuotes(TemplateText(v)) + [Quote];
    assert r[1..|r| - 1] == EscapeQuotes(TemplateText(v));
    r
  }

  /** The amount as `Array.prototype.join` writes it: the number's text, or nothing
      when the amount is missing. */
  function AmountText(amount: Option<JsNumber>, numberText: JsNumber -> string): (t: string)
    ensures amount.Some? ==> t == numberText(amount.value)
    ensures amount.None? ==> t == []
  {
    match amount
    case Some(n) => numberText(n)
    case None => []
  }

  /** The five written cells of one invoice, in column order. */
  function RowCells(r: InvoiceData, numberText: JsNumber -> string): (cells: seq<string>)
    ensures |cells| == |HeaderNames|
    ensures cells[4] == AmountText(r.totalAmount, numberText)
  {
    [QuoteField(r.fileName), QuoteField(r.invoiceNumber), QuoteField(r.vendorName),
     QuoteField(r.invoiceDate), AmountText(r.totalAmount, numberText)]
  }

  /** One data line: the invoice's cells joined with commas. */
  function Row(r: InvoiceData, numberText: JsNumber -> string): string {
    JoinWith(',', RowCells(r, numberText))
  }

  /** The data lines, one per invoice, in order (`extractedData.map(...)`). */
  function Rows(data: seq<InvoiceData>, numberText: JsNumber -> string): (rows: seq<string>)
    ensures |rows| == |data|
    ensures forall k :: 0 <= k < |data| ==> rows[k] == Row(data[k], numberText)
  {
    if |data| == 0 then [] else [Row(data[0], numberText)] + Rows(data[1..], numberText)
  }

  /** The CSV document, or None when there is nothing to export. */
  function CsvContent(data: seq<InvoiceData>, numberText: JsNumber -> string): (r: Option<string>)
    ensures r.None? <==> |data| == 0
    ensures r.Some? ==> |r.value| > |Header| && r.value[..|Header|] == Header && r.value[|Header|] == '\n'
  {
    if |data| == 0 then None
    else
      var text := JoinWith('\n', [Header] + Rows(data, numberText));
      assert text == Header + ['\n'] + JoinWith('\n', Rows(data, numberText));
      Some(text)
  }

  // ---------------------------------------------------------------------------
  // Reading CSV back, following RFC 4180.

  /** Text that may stand as a bare cell: no comma, line feed or quote. */
  predicate Plain(t: string) {
    forall k :: 0 <= k < |t| ==> t[k] != ',' && t[k] != '\n' && t[k] != Quote
  }

  /** Reads the body of a quoted cell, `t` starting just after the opening quote, up to
      the closing quote: a doubled quote stands for one quote. Returns the unescaped
      text and what follows the closing quote, or None if the quote is never closed. */
  function ReadQuoted(t: string): (r: Option<(string, string)>)
    ensures r.Some? ==> |r.value.1| < |t|
    decreases |t|
  {
    if |t| == 0 then None
    else if t[0] == Quote then
      if |t| > 1 && t[1] == Quote then
        match ReadQuoted(t[2..])
        case None => None
        case Some((body, rest)) => Some(([Quote] + body, rest))
      else Some(([], t[1..]))
    else
      match ReadQuoted(t[1..])
      case None => None
      case Some((body, rest)) => Some(([t[0]] + body, rest))
  }

  /** Reads a bare cell: everything up to the next comma or line feed. */
  function ReadBare(t: string): (r: (string, string))
    ensures |r.1| <= |t|
    ensures r.1 == [] || r.1[0] == ',' || r.1[0] == '\n'
    decreases |t|
  {
    if |t| == 0 || t[0] == ',' || t[0] == '\n' then ([], t)
    else
      var (cell, rest) := ReadBare(t[1..]);
      ([t[0]] + cell, rest)
  }

  /** Reads one cell, quoted or bare. A quoted cell must be followed by a comma, a line
      feed or the end of the text. */
  function ReadField(t: string): (r: Option<(string, string)>)
    ensures r.Some? ==> |r.value.1| <= |t|
    ensures r.Some? ==> r.value.1 == [] || r.value.1[0] == ',' || r.value.1[0] == '\n'
  {
    if |t| > 0 && t[0] == Quote then
      match ReadQuoted(t[1..])
      case None => None
      case Some((body, rest)) =>
        if rest == [] || rest[0] == ',' || rest[0] == '\n' then Some((body, rest)) else None
    else Some(ReadBare(t))
  }

  /** Reads one record: cells separated by commas, up to a line feed or the end. */
  function ReadRecord(t: string): (r: Option<(seq<string>, string)>)
    ensures r.Some? ==> |r.value.1| <= |t| && (r.value.1 == [] || r.value.1[0] == '\n')
    decreases |t|
  {
    match ReadField(t)
    case None => None
    case Some((cell, rest)) =>
      if |rest| > 0 && rest[0] == ',' then
        match ReadRecord(rest[1..])
        case None => None
        case Some((cells, rest')) => Some(([cell] + cells, rest'))
      else Some(([cell], rest))
  }

  /** Reads a whole document: records separated by line feeds. */
  function ReadDocument(t: string): (r: Option<seq<seq<string>>>)
    ensures r.Some? ==> |r.value| >= 1
    decreases |t|
  {
    match ReadRecord(t)
    case None => None
    case Some((cells, rest)) =>
      if |rest| == 0 then Some([cells])
      else
        match ReadDocument(rest[1..])
        case None => None
        case Some(records) => Some([cells] + records)
  }

  // ---------------------------------------------------------------------------
  // The writer against the reader.

  /** `cell` is how the writer puts `text`: quoted and escaped, or bare when plain. */
  predicate Encodes(cell: string, text: string) {
    cell == [Quote] + EscapeQuotes(text) + [Quote] || (cell == text && Plain(text))
  }

  /** The texts a reader recovers from one invoice's line, in column order. */
  function RowFields(r: InvoiceData, numberText: JsNumber -> string): (fields: seq<string>)
    ensures |fields| == |HeaderNames|
  {
    [TemplateText(r.fileName), TemplateText(r.invoiceNumber), TemplateText(r.vendorName),
     TemplateText(r.invoiceDate), AmountText(r.totalAmount, numberText)]
  }

  /** The records a reader recovers from the data lines, one per invoice, in order. */
  function AllRowFields(data: seq<InvoiceData>, numberText: JsNumber -> string): (records: seq<seq<string>>)
    ensures |records| == |data|
    ensures forall k :: 0 <= k < |data| ==> records[k] == RowFields(data[k], numberText)
  {
    if |data| == 0 then [] else [RowFields(data[0], numberText)] + AllRowFields(data[1..], numberText)
  }

  /** Section 2, rule 7 of RFC 4180: reading an escaped body back collapses each doubled
      quote and stops at the closing quote, giving back the original text. */
  lemma {:induction false} ReadQuotedEscaped(s: string, rest: string)
    requires rest == [] || rest[0] != Quote
    ensures ReadQuoted(EscapeQuotes(s) + [Quote] + rest) == Some((s, rest))
    decreases |s|
  {
    var t := EscapeQuotes(s) + [Quote] + rest;
    if |s| == 0 {
      assert t == [Quote] + rest;
      assert t[1..] == rest;
    } else {
      ReadQuotedEscaped(s[1..], rest);
      var tail := EscapeQuotes(s[1..]) + [Quote] + rest;
      if s[0] == Quote {
        assert t == [Quote, Quote] + tail;
        assert t[2..] == tail;
      } else {
        assert t == [s[0]] + tail;
        assert t[1..] == tail;
      }
      assert s == [s[0]] + s[1..];
    }
  }

  /** A plain text followed by a comma, a line feed or nothing reads back as itself. */
  lemma {:induction false} ReadBarePlain(text: string, rest: string)
    requires Plain(text)
    requires rest == [] || rest[0] == ',' || rest[0] == '\n'
    ensures ReadBare(text + rest) == (text, rest)
    decreases |text|
  {
    if |text| == 0 {
      assert text + rest == rest;
    } else {
      assert (text + rest)[1..] == text[1..] + rest;
      ReadBarePlain(text[1..], rest);
      assert text == [text[0]] + text[1..];
    }
  }

  /** Every written cell reads back as the text it encodes. */
  lemma ReadFieldEncoded(cell: string, text: string, rest: string)
    requires Encodes(cell, text)
    requires rest == [] || rest[0] == ',' || rest[0] == '\n'
    ensures ReadField(cell + rest) == Some((text, rest))
  {
    if cell == [Quote] + EscapeQuotes(text) + [Quote] {
      ReadQuotedEscaped(text, rest);
      assert (cell + rest)[1..] == EscapeQuotes(text) + [Quote] + rest;
    } else {
      ReadBarePlain(text, rest);
      if |text| > 0 {
        assert (cell + rest)[0] == text[0];
      }
    }
  }

  /** A line of written cells joined with commas reads back as one record of their texts. */
  lemma {:induction false} ReadRecordJoin(cells: seq<string>, texts: seq<string>, rest: string)
    requires |cells| == |texts| >= 1
    requires forall k :: 0 <= k < |cells| ==> Encodes(cells[k], texts[k])
    requires rest == [] || rest[0] == '\n'
    ensures ReadRecord(JoinWith(',', cells) + rest) == Some((texts, rest))
    decreases |cells|
  {
    if |cells| == 1 {
      ReadFieldEncoded(cells[0], texts[0], rest);
      assert texts == [texts[0]];
    } else {
      var more := JoinWith(',', cells[1..]) + rest;
      assert JoinWith(',', cells) + rest == cells[0] + ([','] + more);
      ReadFieldEncoded(cells[0], texts[0], [','] + more);
      assert ([','] + more)[1..] == more;
      forall k | 0 <= k < |cells| - 1
        ensures Encodes(cells[1..][k], texts[1..][k])
      {
        assert Encodes(cells[k + 1], texts[k + 1]);
      }
      ReadRecordJoin(cells[1..], texts[1..], rest);
      assert texts == [texts[0]] + texts[1..];
    }
  }

  /** `line` is the cells, each encoding its text, joined with commas. */
  predicate LineEncodes(line: string, cells: seq<string>, texts: seq<string>) {
    && |cells| == |texts| >= 1
    && line == JoinWith(',', cells)
    && forall m :: 0 <= m < |cells| ==> Encodes(cells[m], texts[m])
  }

  /** Lines of written cells joined with line feeds read back as one record per line. */
  lemma {:induction false} ReadDocumentJoin(lines: seq<string>, cells: seq<seq<string>>, texts: seq<seq<string>>)
    requires |lines| == |cells| == |texts| >= 1
    requires forall k :: 0 <= k < |lines| ==> LineEncodes(lines[k], cells[k], texts[k])
    ensures ReadDocument(JoinWith('\n', lines)) == Some(texts)
    decreases |lines|
  {
    assert LineEncodes(lines[0], cells[0], texts[0]);
    if |lines| == 1 {
      ReadRecordJoin(cells[0], texts[0], []);
      assert lines[0] + [] == lines[0];
      assert texts == [texts[0]];
    } else {
      var more := JoinWith('\n', lines[1..]);
      var rest := ['\n'] + more;
      assert JoinWith('\n', lines) == lines[0] + rest;
      ReadRecordJoin(cells[0], texts[0], rest);
      assert rest[1..] == more;
      forall k | 0 <= k < |lines| - 1
        ensures LineEncodes(lines[1..][k], cells[1..][k], texts[1..][k])
      {
        assert LineEncodes(lines[k + 1], cells[k + 1], texts[k + 1]);
      }
      ReadDocumentJoin(lines[1..], cells[1..], texts[1..]);
      assert texts == [texts[0]] + texts[1..];
    }
  }

  /** Each cell of an invoice's line encodes the matching field text, the amount's
      included when numbers are written plainly. */
  lemma RowCellsEncode(r: InvoiceData, numberText: JsNumber -> string)
    requires forall n :: Plain(numberText(n))
    ensures forall m :: 0 <= m < |HeaderNames| ==> Encodes(RowCells(r, numberText)[m], RowFields(r, numberText)[m])
  {
    var cells, texts := RowCells(r, numberText), RowFields(r, numberText);
    assert Plain(AmountText(r.totalAmount, numberText));
    forall m | 0 <= m < |HeaderNames|
      ensures Encodes(cells[m], texts[m])
    {
    }
  }

  /** The column names are plain, so the header reads back as them. */
  lemma HeaderCellsEncode()
    ensures forall m :: 0 <= m < |HeaderNames| ==> Encodes(HeaderNames[m], HeaderNames[m])
  {
    forall m | 0 <= m < |HeaderNames|
      ensures Plain(HeaderNames[m])
    {
    }
  }

  /** The header line reads back as the column names. */
  lemma HeaderLineEncodes()
    ensures LineEncodes(Header, HeaderNames, HeaderNames)
  {
    HeaderCellsEncode();
  }

  /** The written cells of every invoice, one list per invoice, in order. */
  function CellsOfRows(data: seq<InvoiceData>, numberText: JsNumber -> string): (cells: seq<seq<string>>)
    ensures |cells| == |data|
    ensures forall k :: 0 <= k < |data| ==> cells[k] == RowCells(data[k], numberText)
  {
    if |data| == 0 then [] else [RowCells(data[0], numberText)] + CellsOfRows(data[1..], numberText)
  }

  /** A header line followed by the invoices' lines reads back as the header's record
      followed by one record per invoice. */
  lemma DocumentRoundTrip(
    headerLine: string, headerCells: seq<string>, headerTexts: seq<string>,
    data: seq<InvoiceData>, numberText: JsNumber -> string)
    requires LineEncodes(headerLine, headerCells, headerTexts)
    requires forall n :: Plain(numberText(n))
    ensures ReadDocument(JoinWith('\n', [headerLine] + Rows(data, numberText)))
      == Some([headerTexts] + AllRowFields(data, numberText))
  {
    var lines := [headerLine] + Rows(data, numberText);
    var cells := [headerCells] + CellsOfRows(data, numberText);
    var texts := [headerTexts] + AllRowFields(data, numberText);
    forall k | 0 <= k < |lines|
      ensures LineEncodes(lines[k], cells[k], texts[k])
    {
      if k > 0 {
        RowCellsEncode(data[k - 1], numberText);
      }
    }
    ReadDocumentJoin(lines, cells, texts);
  }

  /** The whole export reads back, under RFC 4180, as the header record followed by one
      record per invoice, in order, each field equal to the text that was written, as
      long as no number's text contains a comma, line feed or quote. */
  lemma CsvRoundTrip(data: seq<InvoiceData>, numberText: JsNumber -> string)
    requires |data| > 0
    requires forall n :: Plain(numberText(n))
    ensures CsvContent(data, numberText).Some?
    ensures ReadDocument(CsvContent(data, numberText).value) == Some([HeaderNames] + AllRowFields(data, numberText))
  {
    HeaderLineEncodes();
    DocumentRoundTrip(Header, HeaderNames, HeaderNames, data, numberText);
  }

  /** Escaping works character by character: it distributes over concatenation. */
  lemma {:induction false} EscapeQuotesAppend(a: string, b: string)
    ensures EscapeQuotes(a + b) == EscapeQuotes(a) + EscapeQuotes(b)
    decreases |a|
  {
    if |a| == 0 {
      assert a + b == b;
    } else {
      assert (a + b)[1..] == a[1..] + b;
      EscapeQuotesAppend(a[1..], b);
    }
  }

  /** Two string fields are written alike only if they carry the same text. */
  lemma QuoteFieldInjective(a: Option<string>, b: Option<string>)
    requires QuoteField(a) == QuoteField(b)
    ensures TemplateText(a) == TemplateText(b)
  {
    ReadFieldEncoded(QuoteField(a), TemplateText(a), []);
    ReadFieldEncoded(QuoteField(b), TemplateText(b), []);
  }

  /** A missing string field and the text `undefined` are written alike; apart from
      that pair, two string fields are written alike only when they are equal. */
  lemma MissingFieldLikeUndefined(a: Option<string>, b: Option<string>)
    ensures QuoteField(a) == QuoteField(b) <==>
      (a == b || (a.None? && b == Some("undefined")) || (a == Some("undefined") && b.None?))
  {
    if QuoteField(a) == QuoteField(b) {
      QuoteFieldInjective(a, b);
    }
  }

  /** Joining with a trailing empty part ends the text with the separator. */
  lemma {:induction false} JoinWithEmptyLast(sep: char, parts: seq<string>)
    requires |parts| >= 2 && parts[|parts| - 1] == []
    ensures JoinWith(sep, parts) == JoinWith(sep, parts[..|parts| - 1]) + [sep]
    decreases |parts|
  {
    if |parts| == 2 {
      assert parts[..1] == [parts[0]];
    } else {
      JoinWithEmptyLast(sep, parts[1..]);
      assert parts[1..][..|parts| - 2] == parts[..|parts| - 1][1..];
    }
  }

  /** A missing amount leaves the last cell empty, so the invoice's line ends with the
      comma before it. */
  lemma MissingAmountEndsRow(r: InvoiceData, numberText: JsNumber -> string)
    requires r.totalAmount.None?
    ensures |Row(r, numberText)| > 0 && Row(r, numberText)[|Row(r, numberText)| - 1] == ','
  {
    var cells := RowCells(r, numberText);
    JoinWithEmptyLast(',', cells);
  }
}
