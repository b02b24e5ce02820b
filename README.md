# pdf_maker serializer, modelled in Dafny

`pdf_maker` writes PDF 1.4 files from Python objects. A `Document` hands out
object numbers from a counter (1 to 4 go to the information dictionary, the
catalog, the outlines and the page-tree root), keeps an append-only list of
`Page`s (each with its own `Content` stream) and a get-or-create dictionary of
`Font`s. `bytes(document)` writes the `%PDF-1.4` header, every object in a
fixed order (the four document objects, then each page followed by its
content, then the fonts), recording the buffer length before each object as
its cross-reference entry, then the cross-reference table and the trailer
(sections 7.5.4 and 7.5.5 of ISO 32000-1).

The model has eight modules:

- `Strings`: line splitting and joining, decimal numerals (`str(n)`), the
  ten-digit zero fill of `'{:0=10}'`, and their readers.
- `Unicode`: bytes, `str.encode()` (UTF-8), `encode("utf-16-be")` and ASCII, each with a decoder.
- `Syntax`: the object header `<n> 0 obj` and what it means for bytes to open
  with it.
- `Fonts` (`pdf_maker/font.py`): the font dictionary.
- `Objects`: the constant table of page sizes and the pure renderers of
  `pdf_maker/pdf.py` (metadata, text instructions, content streams, pages,
  catalog, outlines, page-tree root), each renderer with a reader and a
  round-trip lemma.
- `Assembly`: the serialization of a whole document as a function of what
  `__bytes__` reads (`DocView`): object order, offsets, table, trailer, and
  what a reader of the file can rely on.
- `Pdf`: the classes `Document`, `Page` and `Content`, whose methods update
  the counter, page list, font dictionary, output buffer and table in place.
  `Document.Serialize` is proved to produce `Assembly.Serialization` of the
  document as it stood when called.
- `Scenarios`: whole documents built with those classes, among them the empty
  document of the test suite.

The creation time and `zlib.compress` are parameters: `stamp` is the fourteen
digits `strftime('D%Y%m%d%H%M%S')` writes after its literal `D`, and
`compress` is any function on bytes.

Where the code differs from what a PDF reader expects, the model follows the
code: the creation date is written `(D: D<digits>Z)`; a plain content
stream's `/Length` counts characters, not bytes (`PlainContentLayout` proves
the two agree exactly when the text is ASCII); the page-tree root repeats a
`/Kids [n 0 R]` line per page instead of one array; and the table lists
entries in writing order (see Findings).

## Model

| member | source | states |
|---|---|---|
| Fonts.FontRoundTrip | pdf_maker/font.py:7-15 | for a base font without a line break, reading `str(font)` back gives its object number, base font and encoding, so `/Name /F<n>` carries the header's own number |
| Fonts.NewFontReads | pdf_maker/font.py:2-15 | a constructed font whose base name has no line break reads back as `/Type1` with `/MacRomanEncoding` and `/BaseFont` exactly as passed |
| Fonts.FontFrame | pdf_maker/font.py:7-18 | `bytes(font)` opens with `<n> 0 obj\n` and the text ends with `endobj`, no newline after it |
| Fonts.FontAsciiLength | pdf_maker/font.py:17-18 | for an ASCII base font the byte length equals the string length |
| Objects.PageSize.Dimensions | pdf_maker/pdf.py:20-31 | every preset is portrait: width below height |
| Objects.NewMetadataReads | pdf_maker/pdf.py:35-65 | a new information dictionary, written with any ASCII time stamp, reads back with empty title and creator, producer `PyPdf` and that stamp |
| Objects.EncodeMetadata | pdf_maker/pdf.py:67-69 | never shorter than 2·\|s\| + 4 bytes, exactly that for BMP text, and `(FE FF)` for the empty string |
| Objects.MetadataStringRoundTrip | pdf_maker/pdf.py:67-69 | decoding an encoded metadata string gives every string back |
| Objects.EncodeMetadataAscii | pdf_maker/pdf.py:67-69 | on ASCII text: `(`, FE FF, then a zero byte and the character code per character, then `)` |
| Objects.MetadataFrame | pdf_maker/pdf.py:55-65 | the information dictionary opens with its header and ends with `endobj` |
| Objects.MetadataLength | pdf_maker/pdf.py:55-65 | its exact byte length for any title, creator and time stamp: 100 fixed bytes plus the numeral, the UTF-16BE title and creator and the UTF-8 stamp; two bytes per character of BMP text and one per ASCII stamp digit |
| Objects.MetadataRoundTrip | pdf_maker/pdf.py:55-69 | a reader of `bytes(metadata)` recovers the object number, title, creator, producer `PyPdf` and time stamp |
| Objects.NewTextReads | pdf_maker/pdf.py:109-124 | a new text instruction whose text has no line break: its `BT … ET` block reads back with the font's number, the size, position 0 0 and the text |
| Objects.InstructionTextRoundTrip | pdf_maker/pdf.py:115-124 | when no instruction's text has a line break, a reader recovers from the concatenated `BT … ET` blocks each instruction's font number, size, position and text, in order |
| Objects.StreamHeadRoundTrip | pdf_maker/pdf.py:137-168 | the stream dictionary reads back as the object number, `/Length` and filter |
| Objects.PlainContentLayout | pdf_maker/pdf.py:137-152 | plain stream: header, the instruction text, `  endstream`; `/Length` is the character count, equal to the byte count exactly for ASCII text |
| Objects.FlateContentLayout | pdf_maker/pdf.py:153-168 | compressed stream: `/Length` is the byte length of the compressed body, which sits verbatim between the header and `  endstream` |
| Objects.FlateBodyRoundTrip | pdf_maker/pdf.py:154-166 | any inflater that undoes `compress`, followed by a UTF-8 decoder, recovers the instruction text whatever characters it holds, and, when no text has a line break, the instructions |
| Objects.ContentFrame | pdf_maker/pdf.py:143-168 | every content stream opens with its own header, in both encodings |
| Objects.DedupDistinct | pdf_maker/pdf.py:189-194 | the `unique_font_ids` loop keeps no id twice |
| Objects.DedupOrder | pdf_maker/pdf.py:189-194 | it keeps ids in order of first use |
| Objects.UniqueFontIdsAre | pdf_maker/pdf.py:188-194 | a page lists exactly the fonts its text instructions use, each once, in first-use order |
| Objects.PageRoundTrip | pdf_maker/pdf.py:185-215 | a page reads back as its number, parent, media box, content number and one `/Font` resource per used font |
| Objects.CatalogRoundTrip | pdf_maker/pdf.py:288-294 | the catalog reads back as its number, the outlines and the page-tree root |
| Objects.CatalogLength | pdf_maker/pdf.py:288-294 | its byte length is its three numerals and 67 fixed characters |
| Objects.OutlinesRoundTrip | pdf_maker/pdf.py:296-301 | the outlines read back as their number |
| Objects.OutlinesLength | pdf_maker/pdf.py:296-301 | their byte length is the numeral and 47 fixed characters |
| Objects.PageRootRoundTrip | pdf_maker/pdf.py:303-314 | the page-tree root reads back as its number and every page number in creation order, `/Count` agreeing |
| Objects.EmptyPageRoot | pdf_maker/pdf.py:303-314 | without pages there is no `/Kids` line and `/Count 0` |
| Objects.EmptyPageRootLength | pdf_maker/pdf.py:303-314 | without pages its byte length is the numeral and 44 fixed characters |
| Strings.ParseNatStr | pdf_maker/pdf.py:56 | `str(n)` reads back as `n` |
| Strings.Pad10Reads | pdf_maker/pdf.py:339 | `'{:0=10}'` zero-fills to ten digits, never cuts, and reads back as the number |
| Unicode.Utf8 | pdf_maker/pdf.py:217-218 | `str.encode()` is never shorter than the text and as long exactly when the text is ASCII |
| Unicode.Utf8RoundTrip | pdf_maker/pdf.py:159 | a UTF-8 decoder gives back every text that `str.encode()` wrote |
| Unicode.DecodeUtf8Exact | pdf_maker/pdf.py:159 | the decoder accepts only what `str.encode()` writes: bytes it reads as a text are that text's UTF-8 encoding, so stray or missing continuation bytes, overlong forms, surrogates and values above U+10FFFF are refused |
| Unicode.Utf16Be | pdf_maker/pdf.py:69 | `encode("utf-16-be")` gives two bytes per character in the Basic Multilingual Plane, and strictly more than two per character once any character lies above it |
| Unicode.Utf16RoundTrip | pdf_maker/pdf.py:69 | decoding UTF-16BE gives every string back |
| Syntax.HeadersExclusive | pdf_maker/pdf.py:56 | the `<n> 0 obj` header every written object opens with (also `pdf_maker/pdf.py` lines 143, 161, 196, 289, 297, 304 and `pdf_maker/font.py` line 8) is unambiguous: at most one header starts at any position |
| Assembly.OffsetIs | pdf_maker/pdf.py:328-331 | entry `k` of `xrefs` is the buffer length once `k` objects are written |
| Assembly.OffsetsStep | pdf_maker/pdf.py:328-331 | the first entry follows the file header; each next entry is the previous one plus the object and its newline |
| Assembly.BlobAtOffset | pdf_maker/pdf.py:328-331 | at entry `k` the buffer holds object `k`, then a newline |
| Assembly.PageBlobs | pdf_maker/pdf.py:270-272 | each page is followed by its own content, in page order |
| Assembly.XrefTableIs | pdf_maker/pdf.py:333-341 | the table is `xref`, `0 <count + 1>`, the free entry, then one row per recorded entry |
| Assembly.XrefRowWidth | pdf_maker/pdf.py:339 | a row is the 20 bytes a reader expects exactly when the offset fits ten digits |
| Assembly.XrefRowReads | pdf_maker/pdf.py:339 | a row reads back as its offset |
| Assembly.TrailerLinesRead | pdf_maker/pdf.py:343-354 | the trailer reads back as its size, info, root and `startxref` |
| Assembly.TailRoundTrip | pdf_maker/pdf.py:333-354 | from the table on, a reader recovers every offset in order and the trailer |
| Assembly.TailAscii | pdf_maker/pdf.py:333-354 | the table and trailer are ASCII |
| Assembly.BlobsOpenWithHeaders | pdf_maker/pdf.py:260-275 | every written object opens with the header of the object written in that place |
| Assembly.XrefEntriesAddressObjects | pdf_maker/pdf.py:260-282 | every table entry is the position in the finished file of the header of the object written in that place |
| Assembly.XrefEntryNamesItsObject | pdf_maker/pdf.py:335-339 | entry `k` addresses object `k + 1` exactly when object `k + 1` was the one written in place `k` |
| Assembly.FileOpens | pdf_maker/pdf.py:263 | the file opens with `%PDF-1.4` |
| Assembly.FileTail | pdf_maker/pdf.py:277-282 | from `startxref` a reader finds the table of every entry and a trailer with `/Size` one more than the entries, `/Info` the metadata, `/Root` the catalog |
| Assembly.EmptyDocumentLayout | tests/pdf/test_pdfdocument.py:12-51 | the empty document's objects 1 to 4 are written at 9, 125, 196 and 245, the table at 291, and the trailer is size 5, info 1, root 2 |
| Assembly.EmptyDocumentFile | tests/pdf/test_pdfdocument.py:37-51 | in that file each entry addresses `k 0 obj` and the bytes from 291 read as that table and trailer |
| Assembly.EmptyDocumentBytesExpected | tests/pdf/test_pdfdocument.py:8-57 | with creation time 2010-10-08 00:00:00 the empty document is exactly the byte string the test expects, whatever `compress` is |
| Assembly.IdsIssuedAppend | pdf_maker/pdf.py:284-286 | one more number from the counter keeps the numbers `1 .. n` issued once each |
| Assembly.IdsIssuedInsert | pdf_maker/pdf.py:180-183 | a page and its content taking the next two numbers keep them issued once each |
| Assembly.XrefsByNumberAddressObjects | pdf_maker/pdf.py:335-339 | with the table listed by object number, entry `k` addresses object `k + 1` in every document whose counter issued its numbers |
| Assembly.ByNumberTail | pdf_maker/pdf.py:333-354 | the table listed by number reads back with the same trailer |
| Assembly.FontBeforePageMisaddressed | pdf_maker/pdf.py:270-275 | a font registered before a page takes number 5 but is written last: entry 4 then addresses object 6, not 5; listed by number it addresses 5 |
| Pdf.XrefRowsText | pdf_maker/pdf.py:338-339 | the row loop writes one zero-filled row per entry, in recorded order |
| Pdf.Content.constructor | pdf_maker/pdf.py:132-135 | a new content stream has no instructions and is compressed |
| Pdf.Content.Bytes | pdf_maker/pdf.py:150-168 | `bytes(content)` opens with its own header |
| Pdf.Page.constructor | pdf_maker/pdf.py:172-183 | a new page is appended to the document's pages, takes the next number, its content the one after; fonts, metadata and size unchanged; numbers stay issued once each |
| Pdf.Page.MediaBoxIsPageSize | pdf_maker/pdf.py:185-227 | the `/MediaBox` a reader takes from `bytes(page)` is the page's own size if set, else the document's page size |
| Pdf.Page.Bytes | pdf_maker/pdf.py:217-218 | `bytes(page)` is the page object the serializer writes and opens with the page's header |
| Pdf.Page.AddText | pdf_maker/pdf.py:229-237 | as written: the font is registered as `get_font` does (a known name changes nothing; a new name takes the next number and goes last in the dictionary), then `NameError` is raised and the content is unchanged |
| Pdf.Page.AddTextIntended | pdf_maker/pdf.py:229-237 | as intended: the font is registered as `get_font` does (a known name changes nothing; a new name takes the next number and goes last in the dictionary) and the instruction in that font is appended to the content |
| Pdf.Document.constructor | pdf_maker/pdf.py:243-258 | numbers 1 to 4 go to metadata, catalog, outlines and page-tree root; no pages, no fonts; A4 |
| Pdf.Document.GetNextObjectId | pdf_maker/pdf.py:284-286 | the counter goes up by one and the new value is returned |
| Pdf.Document.GetFont | pdf_maker/pdf.py:319-326 | a known name returns the same font and changes nothing; a new name takes exactly one number and adds exactly one entry |
| Pdf.Document.FontValuesRegistered | pdf_maker/pdf.py:319-326 | `fonts.values()` holds one `MacRomanEncoding` font per registered name, in registration order, each numbered above 4 by the counter, no number twice |
| Pdf.Document.IdsAreEmissionIds | pdf_maker/pdf.py:260-275 | the numbers the document issued are those of the objects `__bytes__` writes, in writing order |
| Pdf.Document.ValidIssuesEmissionIds | pdf_maker/pdf.py:249-255 | the objects written carry the numbers `1 .. n`, once each |
| Pdf.Document.WriteObject | pdf_maker/pdf.py:328-331 | one table entry, the buffer length before; the buffer grows by the object and a newline |
| Pdf.Document.WriteXrefTable | pdf_maker/pdf.py:333-341 | the buffer grows by the table of the recorded entries |
| Pdf.Document.WriteTrailer | pdf_maker/pdf.py:343-354 | the buffer grows by the trailer with `/Size` one more than the entries |
| Pdf.Document.WriteBody | pdf_maker/pdf.py:263-275 | the buffer and table after the objects are the body and offsets of the document's view |
| Pdf.Document.Serialize | pdf_maker/pdf.py:260-282 | `bytes(document)` returns the buffer, which is the serialization of the document as it stood; the table is its offsets |
| Pdf.Document.SerializeByNumber | pdf_maker/pdf.py:333-341 | the same output with the table listed by object number |
| Scenarios.EmptyDocumentBytes | tests/pdf/test_pdfdocument.py:8-57 | `bytes(Document())`: entries 9, 125, 196, 245 each addressing `k 0 obj`, table at 291, trailer size 5, info 1, root 2; with the test's time stamp, exactly the expected bytes |
| Scenarios.FontFirst | pdf_maker/pdf.py:319-326 | `get_font("Helvetica")` on a new document registers font 5, no page yet, the document still valid |
| Scenarios.FontThenPage | pdf_maker/pdf.py:171-182 | `Page(document)` after that font: the page takes 6, its content 7, and the document's view is seven objects with the font written after the page |
| Scenarios.FontBeforePageBytes | pdf_maker/pdf.py:270-275 | `get_font` before `Page`: the entry a reader takes for object 5 addresses object 6 |
| Scenarios.FontBeforePageBytesByNumber | pdf_maker/pdf.py:335-339 | the same document with the table by number: every entry `k` addresses object `k + 1` |

## Left out

- Compression: `zlib.compress` is the parameter `compress`; only `/Length` equal to the compressed length is stated, no round trip of zlib itself.
- Time: `datetime.now()` and `strftime` are replaced by the parameter `stamp`, the fourteen digits after the literal `D`.
- The base64 and inflate helpers (`pdf_maker/pdf.py:9-17`) are never called by the serializer.
- Floats: font sizes and positions are natural numbers written in decimal; the unused `resolution` field is not modelled.
- Nested pages: a page's parent is always the document; a `Page` parent would fail at `_page_root_id` in the source.
- `Metadata.__str__`, `GraphicsState`, `PatternColorSpace` and the `outlines` list are never written to the file.
- Python's `bytes()` dispatch on objects is replaced by a call to the matching renderer.
- Default arguments of `add_text` (`'Arial'`, 12, `(0, 0)`) are passed explicitly.
- MetadataRoundTrip: requires title and creator without U+290A, because that character's UTF-16 unit is the bytes `)` and newline, where the written format is ambiguous.
- Fonts.FontRoundTrip, Fonts.NewFontReads: require a base font (and encoding) without a line break, because the reader splits the dictionary into lines and the source writes the name unescaped.
- Objects.NewTextReads, Objects.InstructionTextRoundTrip: require text without a line break, because the reader splits the stream into lines and the source writes the text unescaped inside `( ) Tj`.
- Objects.FlateBodyRoundTrip: the UTF-8 round trip holds for every text; reading the instructions back from it carries the same line-break condition as InstructionTextRoundTrip.
- Unicode: strings are sequences of Unicode scalar values, so the `UnicodeEncodeError` Python raises for a lone surrogate cannot arise; characters above the Basic Multilingual Plane are encoded as surrogate pairs, as Python does.

## Findings

| source | as written | input that shows it | evidently intended | confidence | as-written member | corrected member |
|---|---|---|---|---|---|---|
| pdf_maker/pdf.py:235 | `add_text` assigns `instruction.encoding = encoding`, a name that is not defined, after `get_font` has already registered the font | any call, e.g. `page.add_text("Hi")` raises `NameError` and leaves the content empty | append the text instruction to the page's content | high, not executed | Pdf.Page.AddText | Pdf.Page.AddTextIntended |
| pdf_maker/pdf.py:335-339 | table rows are listed in writing order under subsection `0 n`, but fonts are written after every page while their numbers are taken when they are first used | `Document()`, `get_font("Helvetica")`, `Page(document)`, `bytes(document)`: the font is object 5, yet row 5 holds the offset of page 6 | row `k` holds the offset of object `k` | high, not executed | Scenarios.FontBeforePageBytes | Pdf.Document.SerializeByNumber |
