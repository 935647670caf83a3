/** `FileProcessor`: turns an uploaded `.txt` or `.docx` file into cleaned article text.
    The byte decoders and the Word reader are foreign code; an upload is represented by
    what they make of its bytes. */
module FileProcessor {
  import opened Results
  import opened PyStr
  import opened TextCleaning

  // ---------------------------------------------------------------------------
  // Uploads

  /** The codecs `_process_text_file` tries. */
  datatype Encoding = Utf8 | Utf16 | Latin1 | Cp1252

  /** The order in which the codecs are tried. */
  const Encodings: seq<Encoding> := [Utf8, Utf16, Latin1, Cp1252]

  /** A Word document as python-docx presents it: the paragraph texts, then the tables. */
  datatype Document = Document(paragraphs: seq<string>, tables: seq<Table>)
  datatype Table = Table(rows: seq<Row>)
  datatype Row = Row(cells: seq<string>)

  /** What the foreign readers make of the uploaded bytes:
      `decode(e)` is `bytes.decode(e)`, `None` when it raises `UnicodeDecodeError`;
      `replaced` is `bytes.decode('utf-8', errors='replace')`, which cannot fail;
      `document` is the parsed Word document, `None` when python-docx cannot open it. */
  datatype Content = Content(
    decode: Encoding -> Option<string>,
    replaced: string,
    document: Option<Document>)

  /** The handler `process_file` picks for a file name. */
  datatype FileKind = PlainText | WordDocument

  /** The `ValueError`s the file processor raises. The first carries the extension in its
      message; the two document failures are caught and re-raised with one generic message,
      so only the log tells them apart. */
  datatype FileError =
    | UnsupportedFileType(extension: string)
    | DocumentUnreadable
    | NoTextInDocument

  // ---------------------------------------------------------------------------
  // Dispatch on the extension

  /** `filename.lower().split('.')[-1]`: the lower-cased text after the last dot, or the
      whole lower-cased name when it has no dot. */
  function Extension(filename: string): (ext: string)
    ensures '.' !in ext
    ensures EndsWith(Lower(filename), ext)
    ensures |ext| < |filename| ==> Lower(filename)[|filename| - |ext| - 1] == '.'
  {
    var parts := Split(Lower(filename), '.');
    SplitLast(Lower(filename), '.');
    SplitSpec(Lower(filename), '.');
    parts[|parts| - 1]
  }

  /** The branch of `process_file` taken for a file name. */
  function Dispatch(filename: string): Result<FileKind, FileError> {
    var ext := Extension(filename);
    if ext == "txt" then Success(PlainText)
    else if ext == "docx" then Success(WordDocument)
    else Failure(UnsupportedFileType(ext))
  }

  /** A lower-cased name ending in `.` and then `suffix` has `suffix` as its extension, and
      so does a dotless name equal to `suffix`. */
  lemma ExtensionOfSuffix(filename: string, suffix: string)
    requires '.' !in suffix
    requires EndsWith(Lower(filename), "." + suffix) || Lower(filename) == suffix
    ensures Extension(filename) == suffix
  {
    var name, ext := Lower(filename), Extension(filename);
    var n, m := |name|, |suffix|;
    if name == suffix {
      SplitPlain(name, '.');
    } else {
      var tail := name[n - m - 1..];
      assert tail == "." + suffix;
      assert name[n - m - 1] == tail[0] == '.';
      forall i | n - m <= i < n ensures name[i] == suffix[i - (n - m)] && name[i] != '.' {
        assert name[i] == tail[i - (n - m) + 1];
        assert suffix[i - (n - m)] in suffix;
      }
      forall i | n - |ext| <= i < n ensures name[i] == ext[i - (n - |ext|)] && name[i] != '.' {
        assert ext[i - (n - |ext|)] in ext;
      }
      assert |ext| == m;
    }
  }

  /** The extension is what follows the last dot of the lower-cased name, or all of it. */
  lemma SuffixOfExtension(filename: string)
    ensures var name, ext := Lower(filename), Extension(filename);
      EndsWith(name, "." + ext) || name == ext
  {
    var name, ext := Lower(filename), Extension(filename);
    var n := |name|;
    if |ext| < n {
      assert name[n - |ext| - 1..] == [name[n - |ext| - 1]] + name[n - |ext|..];
    } else {
      assert name == name[n - |ext|..];
    }
  }

  /** A dot-free `suffix` is the extension exactly when the lower-cased name ends in a dot
      followed by `suffix`, or is `suffix`. */
  lemma ExtensionIs(filename: string, suffix: string)
    requires '.' !in suffix
    ensures Extension(filename) == suffix <==>
      EndsWith(Lower(filename), "." + suffix) || Lower(filename) == suffix
  {
    if EndsWith(Lower(filename), "." + suffix) || Lower(filename) == suffix {
      ExtensionOfSuffix(filename, suffix);
    }
    SuffixOfExtension(filename);
  }

  /** `process_file` sends a name to the text handler exactly when its lower-cased form
      ends in `.txt` or is `txt`, and to the Word handler exactly when it ends in `.docx` or
      is `docx`; every other name is refused with its extension. */
  lemma DispatchSpec(filename: string)
    ensures Dispatch(filename) == Success(PlainText) <==>
      EndsWith(Lower(filename), ".txt") || Lower(filename) == "txt"
    ensures Dispatch(filename) == Success(WordDocument) <==>
      EndsWith(Lower(filename), ".docx") || Lower(filename) == "docx"
    ensures Dispatch(filename).Failure? ==>
      Dispatch(filename).error == UnsupportedFileType(Extension(filename))
  {
    assert "." + "txt" == ".txt" && "." + "docx" == ".docx";
    ExtensionIs(filename, "txt");
    ExtensionIs(filename, "docx");
  }

  // ---------------------------------------------------------------------------
  // Plain text: the ordered decoder fallback

  /** The first codec of `encs` that decodes the bytes, with its text. */
  function FirstDecoding(encs: seq<Encoding>, decode: Encoding -> Option<string>)
    : Option<(Encoding, string)>
  {
    if encs == [] then None
    else if decode(encs[0]).Some? then Some((encs[0], decode(encs[0]).value))
    else FirstDecoding(encs[1..], decode)
  }

  /** The codec at position `i` of `encs` decodes and none before it does. */
  predicate FirstSuccessAt(encs: seq<Encoding>, decode: Encoding -> Option<string>, i: int) {
    && 0 <= i < |encs|
    && decode(encs[i]).Some?
    && forall j | 0 <= j < i :: decode(encs[j]).None?
  }

  /** The search returns the first codec that decodes, with the text it produced, and finds
      nothing exactly when every codec fails. */
  lemma {:induction false} FirstDecodingSpec(encs: seq<Encoding>, decode: Encoding -> Option<string>)
    ensures FirstDecoding(encs, decode).None? <==> forall j | 0 <= j < |encs| :: decode(encs[j]).None?
    ensures FirstDecoding(encs, decode).Some? ==>
      exists i :: FirstSuccessAt(encs, decode, i) &&
        FirstDecoding(encs, decode).value == (encs[i], decode(encs[i]).value)
  {
    if encs != [] {
      FirstDecodingSpec(encs[1..], decode);
      if decode(encs[0]).Some? {
        assert FirstSuccessAt(encs, decode, 0);
      } else {
        forall j | 0 <= j < |encs| && decode(encs[j]).Some? ensures j > 0 && decode(encs[1..][j - 1]).Some? {
          assert encs[1..][j - 1] == encs[j];
        }
        if FirstDecoding(encs, decode).Some? {
          var i :| FirstSuccessAt(encs[1..], decode, i) &&
            FirstDecoding(encs[1..], decode).value == (encs[1..][i], decode(encs[1..][i]).value);
          forall j | 0 <= j < i + 1 ensures decode(encs[j]).None? {
            if j > 0 { assert encs[j] == encs[1..][j - 1]; }
          }
          assert FirstSuccessAt(encs, decode, i + 1);
        }
      }
    }
  }

  /** Once a codec succeeds, the ones after it are never consulted: two decoders that agree
      up to and including the first success give the same outcome. */
  lemma {:induction false} LaterDecodersNotConsulted(encs: seq<Encoding>,
      decode: Encoding -> Option<string>, other: Encoding -> Option<string>, i: nat)
    requires FirstSuccessAt(encs, decode, i)
    requires forall j | 0 <= j <= i :: other(encs[j]) == decode(encs[j])
    ensures FirstDecoding(encs, other) == FirstDecoding(encs, decode) == Some((encs[i], decode(encs[i]).value))
  {
    if i > 0 {
      assert FirstSuccessAt(encs[1..], decode, i - 1) by {
        forall j | 0 <= j < i - 1 ensures decode(encs[1..][j]).None? {
          assert encs[1..][j] == encs[j + 1];
        }
      }
      forall j | 0 <= j <= i - 1 ensures other(encs[1..][j]) == decode(encs[1..][j]) {
        assert encs[1..][j] == encs[j + 1];
      }
      LaterDecodersNotConsulted(encs[1..], decode, other, i - 1);
    }
  }

  /** Latin-1 maps every byte to a character, so once it is in the list the search always
      succeeds and neither cp1252 nor the `errors='replace'` fallback is ever used. */
  lemma Latin1EndsTheSearch(decode: Encoding -> Option<string>)
    requires decode(Latin1).Some?
    ensures FirstDecoding(Encodings, decode).Some?
    ensures FirstDecoding(Encodings, decode).value.0 != Cp1252
  {
    assert Encodings[1..] == [Utf16, Latin1, Cp1252];
    assert Encodings[1..][1..] == [Latin1, Cp1252];
  }

  /** The text `_process_text_file` decodes: the first codec's text, or the lenient UTF-8
      decoding when every codec fails. */
  function DecodedText(content: Content): string {
    match FirstDecoding(Encodings, content.decode)
    case Some((_, text)) => text
    case None => content.replaced
  }

  /** What `_process_text_file` returns. It cannot fail: decoding errors are caught. */
  function TextFileText(content: Content): string {
    Clean(DecodedText(content))
  }

  method ProcessTextFile(content: Content) returns (text: string)
    ensures text == TextFileText(content)
  {
    for i := 0 to |Encodings|
      invariant FirstDecoding(Encodings, content.decode) == FirstDecoding(Encodings[i..], content.decode)
    {
      var decoded := content.decode(Encodings[i]);
      if decoded.Some? {
        text := CleanText(decoded.value);
        return;
      }
      assert Encodings[i..][1..] == Encodings[i + 1..];
    }
    text := CleanText(content.replaced);
  }

  // ---------------------------------------------------------------------------
  // Word documents: collecting the parts

  /** The stripped texts that are not blank, in order: what the `if x.strip():
      text_parts.append(x.strip())` loops keep. */
  function StrippedParts(texts: seq<string>): seq<string> {
    if texts == [] then []
    else
      var part := Strip(texts[|texts| - 1]);
      StrippedParts(texts[..|texts| - 1]) + (if part != [] then [part] else [])
  }

  /** The cell texts of some rows, row by row. */
  function RowCells(rows: seq<Row>): seq<string> {
    if rows == [] then [] else RowCells(rows[..|rows| - 1]) + rows[|rows| - 1].cells
  }

  /** The cell texts of some tables, table by table. */
  function TableCells(tables: seq<Table>): seq<string> {
    if tables == [] then [] else TableCells(tables[..|tables| - 1]) + RowCells(tables[|tables| - 1].rows)
  }

  lemma RowCellsSnoc(rows: seq<Row>, w: int)
    requires 0 <= w < |rows|
    ensures RowCells(rows[..w + 1]) == RowCells(rows[..w]) + rows[w].cells
  {
    assert rows[..w + 1][..w] == rows[..w];
  }

  lemma TableCellsSnoc(tables: seq<Table>, t: int)
    requires 0 <= t < |tables|
    ensures TableCells(tables[..t + 1]) == TableCells(tables[..t]) + RowCells(tables[t].rows)
  {
    assert tables[..t + 1][..t] == tables[..t];
  }

  /** Every text `_process_docx_file` visits, in visiting order: the paragraphs, then the
      cells in table, row, cell order. */
  function DocumentTexts(doc: Document): seq<string> {
    doc.paragraphs + TableCells(doc.tables)
  }

  /** The `text_parts` list. */
  function DocumentParts(doc: Document): seq<string> {
    StrippedParts(DocumentTexts(doc))
  }

  /** What `_process_docx_file` returns or raises. */
  function DocxText(document: Option<Document>): Result<string, FileError> {
    match document
    case None => Failure(DocumentUnreadable)
    case Some(doc) =>
      var parts := DocumentParts(doc);
      if parts == [] then Failure(NoTextInDocument) else Success(Clean(Join("\n\n", parts)))
  }

  lemma StrippedPartsSnoc(texts: seq<string>, x: string)
    ensures StrippedParts(texts + [x]) ==
      StrippedParts(texts) + (if Strip(x) != [] then [Strip(x)] else [])
  {
    assert (texts + [x])[..|texts|] == texts;
  }

  /** One `for x in texts: if x.strip(): text_parts.append(x.strip())` loop. */
  method AppendStrippedParts(parts: seq<string>, texts: seq<string>) returns (out: seq<string>)
    ensures out == parts + StrippedParts(texts)
  {
    out := parts;
    for i := 0 to |texts|
      invariant out == parts + StrippedParts(texts[..i])
    {
      var text := Strip(texts[i]);
      if text != [] {
        out := out + [text];
      }
      StrippedPartsSnoc(texts[..i], texts[i]);
      assert texts[..i + 1] == texts[..i] + [texts[i]];
    }
    assert texts[..|texts|] == texts;
  }

  /** The `for row in table.rows: for cell in row.cells: ...` loops for one table. */
  method AppendTableParts(parts: seq<string>, table: Table) returns (out: seq<string>)
    ensures out == parts + StrippedParts(RowCells(table.rows))
  {
    var rows := table.rows;
    out := parts;
    ghost var seen: seq<string> := [];
    for w := 0 to |rows|
      invariant seen == RowCells(rows[..w])
      invariant out == parts + StrippedParts(seen)
    {
      var cells := rows[w].cells;
      out := AppendStrippedParts(out, cells);
      AppendStep(parts, seen, cells);
      RowCellsSnoc(rows, w);
      seen := seen + cells;
    }
    assert rows[..|rows|] == rows;
  }

  /** The `text_parts` list `_process_docx_file` builds: the paragraph parts, then the
      cell parts. */
  method CollectParts(doc: Document) returns (parts: seq<string>)
    ensures parts == StrippedParts(doc.paragraphs) + StrippedParts(TableCells(doc.tables))
  {
    parts := AppendStrippedParts([], doc.paragraphs);
    ghost var paragraphParts := parts;
    assert paragraphParts + StrippedParts(TableCells(doc.tables[..0])) == parts by {
      assert doc.tables[..0] == [];
    }
    for t := 0 to |doc.tables|
      invariant parts == paragraphParts + StrippedParts(TableCells(doc.tables[..t]))
    {
      parts := AppendTableParts(parts, doc.tables[t]);
      NextTableStep(paragraphParts, doc.tables, t);
    }
    assert doc.tables[..|doc.tables|] == doc.tables;
    assert paragraphParts == StrippedParts(doc.paragraphs);
  }

  method ProcessDocxFile(document: Option<Document>) returns (r: Result<string, FileError>)
    ensures r == DocxText(document)
  {
    if document.None? {
      return Failure(DocumentUnreadable);
    }
    var parts := CollectParts(document.value);
    ParagraphsBeforeCells(document.value);
    if parts == [] {
      return Failure(NoTextInDocument);
    }
    var cleaned := CleanText(Join("\n\n", parts));
    return Success(cleaned);
  }

  // ---------------------------------------------------------------------------
  // Properties of the collected parts

  lemma {:induction false} StrippedPartsAppend(a: seq<string>, b: seq<string>)
    ensures StrippedParts(a + b) == StrippedParts(a) + StrippedParts(b)
    decreases |b|
  {
    if b == [] {
      assert a + b == a;
    } else {
      var init, last := b[..|b| - 1], b[|b| - 1];
      var kept := if Strip(last) != [] then [Strip(last)] else [];
      assert b == init + [last];
      assert a + b == (a + init) + [last];
      StrippedPartsSnoc(a + init, last);
      StrippedPartsSnoc(init, last);
      StrippedPartsAppend(a, init);
      calc {
        StrippedParts(a + b);
        StrippedParts(a + init) + kept;
        StrippedParts(a) + StrippedParts(init) + kept;
        StrippedParts(a) + (StrippedParts(init) + kept);
        StrippedParts(a) + StrippedParts(b);
      }
    }
  }

  lemma AppendStep(prefix: seq<string>, seen: seq<string>, more: seq<string>)
    ensures prefix + StrippedParts(seen) + StrippedParts(more) == prefix + StrippedParts(seen + more)
  {
    StrippedPartsAppend(seen, more);
  }

  /** The parts of a document are its non-blank paragraphs, stripped, followed by its
      non-blank cells, stripped. */
  lemma NextTableStep(prefix: seq<string>, tables: seq<Table>, t: int)
    requires 0 <= t < |tables|
    ensures prefix + StrippedParts(TableCells(tables[..t])) + StrippedParts(RowCells(tables[t].rows))
      == prefix + StrippedParts(TableCells(tables[..t + 1]))
  {
    AppendStep(prefix, TableCells(tables[..t]), RowCells(tables[t].rows));
    TableCellsSnoc(tables, t);
  }

  lemma ParagraphsBeforeCells(doc: Document)
    ensures DocumentParts(doc) ==
      StrippedParts(doc.paragraphs) + StrippedParts(TableCells(doc.tables))
  {
    StrippedPartsAppend(doc.paragraphs, TableCells(doc.tables));
  }

  /** Every part is non-empty and already stripped. */
  lemma {:induction false} StrippedPartsAreStripped(texts: seq<string>)
    ensures forall i | 0 <= i < |StrippedParts(texts)| ::
      StrippedParts(texts)[i] != [] && Strip(StrippedParts(texts)[i]) == StrippedParts(texts)[i]
  {
    if texts != [] {
      var init, last := texts[..|texts| - 1], texts[|texts| - 1];
      var parts, all := StrippedParts(init), StrippedParts(texts);
      StrippedPartsAreStripped(init);
      StripIdempotent(last);
      forall i | 0 <= i < |all| ensures all[i] != [] && Strip(all[i]) == all[i] {
        if i < |parts| {
          assert all[i] == parts[i];
        } else {
          assert all[i] == Strip(last);
        }
      }
    }
  }

  /** Each part is the stripped form of one of the visited texts. */
  lemma {:induction false} StrippedPartsFromTexts(texts: seq<string>)
    ensures forall i | 0 <= i < |StrippedParts(texts)| ::
      exists j | 0 <= j < |texts| :: StrippedParts(texts)[i] == Strip(texts[j])
  {
    if texts != [] {
      var init, last := texts[..|texts| - 1], texts[|texts| - 1];
      StrippedPartsFromTexts(init);
      forall i | 0 <= i < |StrippedParts(texts)|
        ensures exists j | 0 <= j < |texts| :: StrippedParts(texts)[i] == Strip(texts[j])
      {
        if i < |StrippedParts(init)| {
          var j :| 0 <= j < |init| && StrippedParts(init)[i] == Strip(init[j]);
          assert StrippedParts(texts)[i] == StrippedParts(init)[i] && texts[j] == init[j];
        } else {
          assert StrippedParts(texts)[i] == Strip(texts[|texts| - 1]);
        }
      }
    } else {
      assert StrippedParts(texts) == [];
    }
  }

  /** Nothing survives exactly when every text is blank. */
  lemma {:induction false} StrippedPartsEmptyIffBlank(texts: seq<string>)
    ensures StrippedParts(texts) == [] <==> forall j | 0 <= j < |texts| :: AllSpace(texts[j])
  {
    if texts != [] {
      var init, last := texts[..|texts| - 1], texts[|texts| - 1];
      assert StrippedParts(texts) == [] <==> StrippedParts(init) == [] && Strip(last) == [];
      StrippedPartsEmptyIffBlank(init);
      StripEmptyIffBlank(last);
      BlankSnoc(init, last);
      assert texts == init + [last];
    }
  }

  lemma BlankSnoc(init: seq<string>, last: string)
    ensures (forall j | 0 <= j < |init + [last]| :: AllSpace((init + [last])[j])) <==>
      (forall j | 0 <= j < |init| :: AllSpace(init[j])) && AllSpace(last)
  {
    assert forall j | 0 <= j < |init| :: (init + [last])[j] == init[j];
    assert (init + [last])[|init|] == last;
  }

  /** The Word handler fails with `NoTextInDocument` exactly when every paragraph and every
      cell is blank. */
  lemma DocxFailsIffBlank(doc: Document)
    ensures DocxText(Some(doc)) == Failure(NoTextInDocument) <==>
      forall j | 0 <= j < |DocumentTexts(doc)| :: AllSpace(DocumentTexts(doc)[j])
    ensures DocxText(Some(doc)).Failure? ==> DocxText(Some(doc)).error == NoTextInDocument
  {
    StrippedPartsEmptyIffBlank(DocumentTexts(doc));
  }

  // ---------------------------------------------------------------------------
  // The whole file

  /** What `process_file` returns or raises. */
  function ProcessedText(filename: string, content: Content): Result<string, FileError> {
    match Dispatch(filename)
    case Failure(e) => Failure(e)
    case Success(PlainText) => Success(TextFileText(content))
    case Success(WordDocument) => DocxText(content.document)
  }

  method ProcessFile(content: Content, filename: string) returns (r: Result<string, FileError>)
    ensures r == ProcessedText(filename, content)
  {
    var ext := Extension(filename);
    if ext == "txt" {
      var text := ProcessTextFile(content);
      r := Success(text);
    } else if ext == "docx" {
      r := ProcessDocxFile(content.document);
    } else {
      r := Failure(UnsupportedFileType(ext));
    }
  }

  /** The text of a processed file is already clean: cleaning it again changes nothing, it
      has no blank line and no whitespace at either end. */
  lemma ProcessedTextIsClean(filename: string, content: Content)
    requires ProcessedText(filename, content).Success?
    ensures var text := ProcessedText(filename, content).value;
      Clean(text) == text && NoBlankLine(text) && Strip(text) == text
  {
    var text := ProcessedText(filename, content).value;
    var source := if Dispatch(filename) == Success(PlainText) then DecodedText(content)
      else Join("\n\n", DocumentParts(content.document.value));
    assert text == Clean(source);
    CleanIdempotent(source);
    CleanHasNoBlankLine(source);
    CleanEmptyIffBlank(source);
  }

  /** Plain-text files never fail once dispatched; Word documents fail only as unreadable or
      empty. */
  lemma ProcessedTextErrors(filename: string, content: Content)
    ensures Dispatch(filename) == Success(PlainText) ==> ProcessedText(filename, content).Success?
    ensures ProcessedText(filename, content).Failure? && Dispatch(filename).Success? ==>
      ProcessedText(filename, content).error in {DocumentUnreadable, NoTextInDocument}
  {
  }
}
