/** How `Document.__bytes__` lays out the file: the `%PDF-1.4` header, every
    object followed by a newline, the cross-reference table and the trailer;
    and what a reader of the finished file can rely on. */
module Assembly {
  import opened Strings
  import opened Unicode
  import opened Syntax
  import opened Fonts
  import opened Objects

  /** The first line of the file, `b'%PDF-1.4\n'`. */
  const FileHeader := "%PDF-1.4\n"

  /** The buffer `__bytes__` starts from: the file header as bytes. */
  const FileStart: seq<Byte> := Ascii(FileHeader)

  // ---------------------------------------------------------------------------
  // Writing objects one after the other

  /** The buffer after `_write_object` has appended each blob and a newline. */
  function Emit(start: seq<Byte>, blobs: seq<seq<Byte>>): seq<Byte>
  {
    if blobs == [] then start
    else Emit(start, blobs[..|blobs| - 1]) + blobs[|blobs| - 1] + [10]
  }

  /** The `xrefs` list: the length of the buffer just before each blob. */
  function Offsets(start: seq<Byte>, blobs: seq<seq<Byte>>): (offs: seq<nat>)
    ensures |offs| == |blobs|
  {
    if blobs == [] then []
    else Offsets(start, blobs[..|blobs| - 1]) + [|Emit(start, blobs[..|blobs| - 1])|]
  }

  /** Writing fewer objects gives a prefix of writing more. */
  lemma {:induction false} EmitPrefix(start: seq<Byte>, blobs: seq<seq<Byte>>, j: nat)
    requires j <= |blobs|
    ensures Emit(start, blobs[..j]) <= Emit(start, blobs)
  {
    if j < |blobs| {
      var front := blobs[..|blobs| - 1];
      assert front[..j] == blobs[..j];
      EmitPrefix(start, front, j);
    } else {
      assert blobs[..j] == blobs;
    }
  }

  /** Entry `k` is the buffer length once the first `k` blobs are written. */
  lemma {:induction false} OffsetIs(start: seq<Byte>, blobs: seq<seq<Byte>>, k: nat)
    requires k < |blobs|
    ensures Offsets(start, blobs)[k] == |Emit(start, blobs[..k])|
  {
    var front := blobs[..|blobs| - 1];
    if k < |front| {
      assert front[..k] == blobs[..k];
      OffsetIs(start, front, k);
    }
  }

  /** The first entry follows the file header; each later entry follows the
      previous blob and its newline, so every entry is exactly where its blob starts. */
  lemma OffsetsStep(start: seq<Byte>, blobs: seq<seq<Byte>>, k: nat)
    requires k < |blobs|
    ensures k == 0 ==> Offsets(start, blobs)[k] == |start|
    ensures k + 1 < |blobs| ==> Offsets(start, blobs)[k + 1] == Offsets(start, blobs)[k] + |blobs[k]| + 1
  {
    OffsetIs(start, blobs, k);
    if k == 0 {
      assert blobs[..0] == [];
    }
    if k + 1 < |blobs| {
      OffsetIs(start, blobs, k + 1);
      assert blobs[..k + 1][..k] == blobs[..k];
    }
  }

  /** At entry `k` of the table the buffer holds blob `k` and then a newline. */
  lemma BlobAtOffset(start: seq<Byte>, blobs: seq<seq<Byte>>, k: nat)
    requires k < |blobs|
    ensures Offsets(start, blobs)[k] + |blobs[k]| < |Emit(start, blobs)|
    ensures Emit(start, blobs)[Offsets(start, blobs)[k]..Offsets(start, blobs)[k] + |blobs[k]|] == blobs[k]
    ensures Emit(start, blobs)[Offsets(start, blobs)[k] + |blobs[k]|] == 10
  {
    OffsetIs(start, blobs, k);
    EmitPrefix(start, blobs, k + 1);
    EmitStep(start, blobs, k);
    hide Emit;
    hide Offsets;
    var before := Emit(start, blobs[..k]);
    var e := Emit(start, blobs);
    assert e[..|before| + |blobs[k]| + 1] == before + blobs[k] + [10];
  }

  /** The file header opens the buffer whatever is written after it. */
  lemma StartStays(start: seq<Byte>, blobs: seq<seq<Byte>>)
    ensures start <= Emit(start, blobs)
  {
    EmitPrefix(start, blobs, 0);
    assert blobs[..0] == [];
  }

  /** Writing one more blob appends it and a newline, and records where it starts. */
  lemma EmitStep(start: seq<Byte>, blobs: seq<seq<Byte>>, n: nat)
    requires n < |blobs|
    ensures Emit(start, blobs[..n + 1]) == Emit(start, blobs[..n]) + blobs[n] + [10]
    ensures Offsets(start, blobs[..n + 1]) == Offsets(start, blobs[..n]) + [|Emit(start, blobs[..n])|]
  {
    assert blobs[..n + 1][..n] == blobs[..n];
  }

  /** Appending a blob to the list written appends it and a newline to the
      buffer, and records where it starts. */
  lemma EmitAppend(start: seq<Byte>, written: seq<seq<Byte>>, b: seq<Byte>)
    ensures Emit(start, written + [b]) == Emit(start, written) + b + [10]
    ensures Offsets(start, written + [b]) == Offsets(start, written) + [|Emit(start, written)|]
  {
    assert (written + [b])[..|written|] == written;
  }

  /** The buffer and the table once four blobs are written. */
  lemma EmitFour(start: seq<Byte>, a: seq<Byte>, b: seq<Byte>, c: seq<Byte>, d: seq<Byte>)
    ensures Emit(start, [a, b, c, d]) == start + a + [10] + b + [10] + c + [10] + d + [10]
    ensures Offsets(start, [a, b, c, d])
         == [ |start|,
              |start + a + [10]|,
              |start + a + [10] + b + [10]|,
              |start + a + [10] + b + [10] + c + [10]| ]
  {
    var blobs := [a, b, c, d];
    assert Emit(start, blobs[..0]) == start && Offsets(start, blobs[..0]) == [] by {
      assert blobs[..0] == [];
    }
    hide Emit;
    hide Offsets;
    EmitStep(start, blobs, 0);
    EmitStep(start, blobs, 1);
    EmitStep(start, blobs, 2);
    EmitStep(start, blobs, 3);
    assert blobs[..4] == blobs;
  }

  // ---------------------------------------------------------------------------
  // The cross-reference table

  /** One in-use entry: the offset as ten digits (more when it needs more), generation 0. */
  function XrefRow(offset: nat): string
  {
    Pad10(offset) + " 00000 n "
  }

  /** The `xref` keyword, the subsection `0 <count>` and the free entry for object 0. */
  function XrefHeadLines(count: nat): seq<string>
  {
    ["xref", "0 " + NatStr(count), "0000000000 65535 f "]
  }

  function XrefLines(offsets: seq<nat>): seq<string>
  {
    XrefHeadLines(|offsets| + 1) + RenderEach(offsets, XrefRow)
  }

  /** `_write_xref_table()`: every line ends in a newline. */
  function XrefTable(offsets: seq<nat>): string
  {
    Terminated(XrefLines(offsets), '\n')
  }

  /** The in-use entries, each with its newline, as `_write_xref_table()`'s loop
      appends them. */
  function XrefRows(offsets: seq<nat>): string
  {
    if offsets == [] then ""
    else XrefRows(offsets[..|offsets| - 1]) + XrefRow(offsets[|offsets| - 1]) + "\n"
  }

  /** The opening lines as `_write_xref_table` builds them. */
  lemma XrefHeadText(count: nat)
    ensures "xref\n0 " + NatStr(count) + "\n" + "0000000000 65535 f \n" == Terminated(XrefHeadLines(count), '\n')
  {
    var head := XrefHeadLines(count);
    TerminatedAppend([], head[0], '\n');
    TerminatedAppend([head[0]], head[1], '\n');
    TerminatedAppend([head[0], head[1]], head[2], '\n');
    assert [] + [head[0]] == [head[0]] && [head[0]] + [head[1]] == [head[0], head[1]];
    assert [head[0], head[1]] + [head[2]] == head;
  }

  /** The table is its three opening lines, then the rows. */
  lemma {:induction false} XrefTableIs(offsets: seq<nat>)
    ensures XrefTable(offsets) == Terminated(XrefHeadLines(|offsets| + 1), '\n') + XrefRows(offsets)
  {
    XrefTableParts(XrefHeadLines(|offsets| + 1), offsets);
  }

  /** The opening lines followed by the rows are the table. */
  lemma XrefTableFrom(offsets: seq<nat>, opening: string)
    requires opening == "xref\n0 " + NatStr(|offsets| + 1) + "\n" + "0000000000 65535 f \n"
    ensures opening + XrefRows(offsets) == XrefTable(offsets)
  {
    XrefHeadText(|offsets| + 1);
    XrefTableIs(offsets);
  }

  lemma {:induction false} XrefTableParts(head: seq<string>, offsets: seq<nat>)
    ensures Terminated(head + RenderEach(offsets, XrefRow), '\n') == Terminated(head, '\n') + XrefRows(offsets)
  {
    if offsets == [] {
      assert head + RenderEach(offsets, XrefRow) == head;
    } else {
      var front := offsets[..|offsets| - 1];
      var last := offsets[|offsets| - 1];
      var h, rows, row := Terminated(head, '\n'), XrefRows(front), XrefRow(last);
      assert h + rows + row + "\n" == h + (rows + row + "\n");
      assert offsets == front + [last];
      RenderEachAppend(front, last, XrefRow);
      var before := head + RenderEach(front, XrefRow);
      assert head + RenderEach(offsets, XrefRow) == before + [XrefRow(last)];
      TerminatedAppend(before, XrefRow(last), '\n');
      XrefTableParts(head, front);
      assert XrefRows(offsets) == XrefRows(front) + XrefRow(last) + "\n";
    }
  }

  /** An entry is the twenty bytes (with its newline) a PDF reader expects exactly
      when the offset fits in ten digits. */
  lemma XrefRowWidth(offset: nat)
    ensures |XrefRow(offset)| >= 19
    ensures |XrefRow(offset)| == 19 <==> offset < Pow10(10)
  {
    Pad10Reads(offset);
  }

  function ParseXrefRow(l: string): Option<nat>
  {
    match StripSuffix(l, " 00000 n ")
    case None => None
    case Some(digits) => ParseNat(digits)
  }

  lemma XrefRowReads(offset: nat)
    ensures '\n' !in XrefRow(offset)
    ensures ParseXrefRow(XrefRow(offset)) == Some(offset)
  {
    Pad10Reads(offset);
    StripSuffixOf(Pad10(offset), " 00000 n ");
    assert forall i :: 0 <= i < |Pad10(offset)| ==> IsDigit(Pad10(offset)[i]);
    assert '\n' !in Pad10(offset);
  }

  // ---------------------------------------------------------------------------
  // The trailer

  datatype TrailerInfo = TrailerInfo(size: nat, infoId: nat, rootId: nat, xrefPosition: nat)

  function TrailerLines(t: TrailerInfo): seq<string>
  {
    [ "trailer",
      "<< /Size " + NatStr(t.size),
      "   /Info " + NatStr(t.infoId) + " 0 R",
      "   /Root " + NatStr(t.rootId) + " 0 R",
      ">>",
      "startxref",
      NatStr(t.xrefPosition),
      "%%EOF" ]
  }

  /** `_write_trailer(xref_position)`: no newline after `%%EOF`. */
  function TrailerStr(t: TrailerInfo): string
  {
    Join(TrailerLines(t), '\n')
  }

  /** Reads the eight trailer lines. */
  function ParseTrailerLines(ls: seq<string>): Option<TrailerInfo>
    requires |ls| == 8
  {
    if ls[0] != "trailer" || ls[4] != ">>" || ls[5] != "startxref" || ls[7] != "%%EOF" then None
    else
      var size := ParseNumberLine(ls[1], "<< /Size ", "");
      var info := ParseNumberLine(ls[2], "   /Info ", " 0 R");
      var root := ParseNumberLine(ls[3], "   /Root ", " 0 R");
      var pos := ParseNat(ls[6]);
      if size.None? || info.None? || root.None? || pos.None? then None
      else Some(TrailerInfo(size.value, info.value, root.value, pos.value))
  }

  /** The trailer lines hold no newline and read back as what was written. */
  lemma TrailerLinesRead(t: TrailerInfo)
    ensures NoneContain(TrailerLines(t), '\n')
    ensures ParseTrailerLines(TrailerLines(t)) == Some(t)
  {
    TrailerLinesSingle(t);
    TrailerLinesParse(t);
  }

  lemma TrailerLinesSingle(t: TrailerInfo)
    ensures NoneContain(TrailerLines(t), '\n')
  {
    var ls := TrailerLines(t);
    NatStrHasNo(t.size, '\n');
    NatStrHasNo(t.infoId, '\n');
    NatStrHasNo(t.rootId, '\n');
    NatStrHasNo(t.xrefPosition, '\n');
    forall i | 0 <= i < 8 ensures '\n' !in ls[i] {
      if i == 1 {} else if i == 2 {} else if i == 3 {} else if i == 6 {}
    }
  }

  lemma TrailerLinesParse(t: TrailerInfo)
    ensures ParseTrailerLines(TrailerLines(t)) == Some(t)
  {
    var ls := TrailerLines(t);
    assert ls[1] == "<< /Size " + NatStr(t.size) + "";
    ParseNumberLineOf("<< /Size ", t.size, "");
    ParseNumberLineOf("   /Info ", t.infoId, " 0 R");
    ParseNumberLineOf("   /Root ", t.rootId, " 0 R");
    ParseNatStr(t.xrefPosition);
  }

  // ---------------------------------------------------------------------------
  // Reading the end of the file

  /** The lines of the table and the trailer, as they follow each other. */
  function TailLines(offsets: seq<nat>, t: TrailerInfo): seq<string>
  {
    XrefLines(offsets) + TrailerLines(t)
  }

  /** Reads the cross-reference table and the trailer from the text that starts at
      `startxref`'s position; refuses a table whose count is not its number of
      entries plus the free one. */
  function ParseTail(s: string): Option<(seq<nat>, TrailerInfo)>
  {
    ParseTailLines(Split(s, '\n'))
  }

  /** Reads the table's opening lines, one row per entry, and the trailer lines. */
  function ParseTailLines(ls: seq<string>): Option<(seq<nat>, TrailerInfo)>
  {
    if |ls| < 11 || ls[0] != "xref" || ls[2] != "0000000000 65535 f " then None
    else
      var count := ParseNumberLine(ls[1], "0 ", "");
      var offsets := ParseEach(ls[3..|ls| - 8], ParseXrefRow);
      var trailer := ParseTrailerLines(ls[|ls| - 8..]);
      if count.None? || offsets.None? || trailer.None? then None
      else if count.value != |offsets.value| + 1 then None
      else Some((offsets.value, trailer.value))
  }

  /** The table and trailer as written are the tail lines joined by newlines. */
  lemma TailText(offsets: seq<nat>, t: TrailerInfo)
    ensures XrefTable(offsets) + TrailerStr(t) == Join(TailLines(offsets, t), '\n')
  {
    TerminatedThenJoin(XrefLines(offsets), TrailerLines(t), '\n');
  }

  lemma TailLinesOneLineEach(offsets: seq<nat>, t: TrailerInfo)
    ensures NoneContain(TailLines(offsets, t), '\n')
  {
    var head := XrefHeadLines(|offsets| + 1);
    var rows := RenderEach(offsets, XrefRow);
    NatStrHasNo(|offsets| + 1, '\n');
    assert NoneContain(head, '\n') by {
      forall i | 0 <= i < 3 ensures '\n' !in head[i] { if i == 1 {} }
    }
    assert NoneContain(rows, '\n') by {
      forall i | 0 <= i < |rows| ensures '\n' !in rows[i] { XrefRowReads(offsets[i]); }
    }
    TrailerLinesRead(t);
    NoneContainConcat(head, rows, '\n');
    NoneContainConcat(head + rows, TrailerLines(t), '\n');
  }

  /** A reader of the text from the table on recovers every offset, in order, and
      the trailer as written. */
  lemma TailRoundTrip(offsets: seq<nat>, t: TrailerInfo)
    ensures ParseTail(XrefTable(offsets) + TrailerStr(t)) == Some((offsets, t))
  {
    var ls := TailLines(offsets, t);
    TailText(offsets, t);
    TailLinesOneLineEach(offsets, t);
    TailLinesRead(offsets, t);
    assert |ls| >= 11;
    hide TailLines;
    hide ParseTailLines;
    hide XrefTable;
    hide TrailerStr;
    SplitJoin(ls, '\n');
  }

  /** The tail lines: the three opening lines, a row per entry, the trailer lines. */
  lemma TailLinesParts(offsets: seq<nat>, t: TrailerInfo)
    ensures |TailLines(offsets, t)| == 11 + |offsets|
    ensures TailLines(offsets, t)[..3] == XrefHeadLines(|offsets| + 1)
    ensures TailLines(offsets, t)[3..|TailLines(offsets, t)| - 8] == RenderEach(offsets, XrefRow)
    ensures TailLines(offsets, t)[|TailLines(offsets, t)| - 8..] == TrailerLines(t)
  {
    var ls := TailLines(offsets, t);
    assert ls == XrefHeadLines(|offsets| + 1) + RenderEach(offsets, XrefRow) + TrailerLines(t);
  }

  /** The tail lines read back as the offsets and the trailer. */
  lemma TailLinesRead(offsets: seq<nat>, t: TrailerInfo)
    ensures ParseTailLines(TailLines(offsets, t)) == Some((offsets, t))
  {
    TailLinesParts(offsets, t);
    var ls := TailLines(offsets, t);
    var head := XrefHeadLines(|offsets| + 1);
    assert ls[0] == head[0] == "xref" && ls[2] == head[2];
    assert ls[1] == "0 " + NatStr(|offsets| + 1) + "";
    ParseNumberLineOf("0 ", |offsets| + 1, "");
    forall n: nat ensures ParseXrefRow(XrefRow(n)) == Some(n) {
      XrefRowReads(n);
    }
    ParseEachOf(offsets, XrefRow, ParseXrefRow);
    TrailerLinesRead(t);
    hide TailLines;
    hide XrefHeadLines;
    hide TrailerLines;
    hide ParseTrailerLines;
    hide ParseEach;
    hide RenderEach;
    hide ParseNumberLine;
  }

  // ---------------------------------------------------------------------------
  // The document as the serializer reads it

  /** What `bytes(document)` reads of a page and its content object. */
  datatype PageView = PageView(objectId: nat, pageSize: Option<Size>, contentId: nat,
                               instructions: seq<Text>, encoding: ContentEncoding)

  /** What `bytes(document)` reads of a document; `fonts` in the order the
      `fonts` dictionary was filled, which is the order its values come out in. */
  datatype DocView = DocView(metadata: Metadata, catalogId: nat, outlinesId: nat, pageRootId: nat,
                             pageSize: Size, pages: seq<PageView>, fonts: seq<Font>)

  /** `Page.get_page_size()`: the page's own size when set, else its parent's. */
  function EffectiveSize(own: Option<Size>, inherited: Size): Size
  {
    if own.Some? then own.value else inherited
  }

  /** `bytes(page)`: the parent is the page-tree root. */
  function PageBlob(p: PageView, rootId: nat, inherited: Size): seq<Byte>
  {
    Utf8(PageStr(p.objectId, rootId, EffectiveSize(p.pageSize, inherited), p.contentId, p.instructions))
  }

  /** `bytes(page.content)`. */
  function ContentBlob(p: PageView, compress: seq<Byte> -> seq<Byte>): seq<Byte>
  {
    ContentBytes(p.contentId, p.instructions, p.encoding, compress)
  }

  /** The page numbers the page-tree root lists, in page order. */
  function PageObjectIds(pages: seq<PageView>): (ids: seq<nat>)
    ensures |ids| == |pages|
    ensures forall i :: 0 <= i < |pages| ==> ids[i] == pages[i].objectId
  {
    seq(|pages|, i requires 0 <= i < |pages| => pages[i].objectId)
  }

  /** `a[0], b[0], a[1], b[1], ...`: each element's first image, then its second. */
  function Pairs<T>(a: seq<T>, b: seq<T>): (r: seq<T>)
    requires |a| == |b|
    ensures |r| == 2 * |a|
    ensures forall i :: 0 <= i < |a| ==> r[2 * i] == a[i] && r[2 * i + 1] == b[i]
  {
    if a == [] then [] else Pairs(a[..|a| - 1], b[..|b| - 1]) + [a[|a| - 1], b[|b| - 1]]
  }

  /** Each page object, in page order. */
  function PageObjectBlobs(pages: seq<PageView>, rootId: nat, inherited: Size): (r: seq<seq<Byte>>)
    ensures |r| == |pages|
    ensures forall i :: 0 <= i < |pages| ==> r[i] == PageBlob(pages[i], rootId, inherited)
  {
    seq(|pages|, i requires 0 <= i < |pages| => PageBlob(pages[i], rootId, inherited))
  }

  /** Each content stream, in page order. */
  function ContentBlobs(pages: seq<PageView>, compress: seq<Byte> -> seq<Byte>): (r: seq<seq<Byte>>)
    ensures |r| == |pages|
    ensures forall i :: 0 <= i < |pages| ==> r[i] == ContentBlob(pages[i], compress)
  {
    seq(|pages|, i requires 0 <= i < |pages| => ContentBlob(pages[i], compress))
  }

  /** The first loop of `__bytes__`: each page, then its content. */
  function PageBlobs(pages: seq<PageView>, rootId: nat, inherited: Size,
                     compress: seq<Byte> -> seq<Byte>): (r: seq<seq<Byte>>)
    ensures |r| == 2 * |pages|
    ensures forall i :: 0 <= i < |pages| ==>
      r[2 * i] == PageBlob(pages[i], rootId, inherited) && r[2 * i + 1] == ContentBlob(pages[i], compress)
  {
    Pairs(PageObjectBlobs(pages, rootId, inherited), ContentBlobs(pages, compress))
  }

  /** The object numbers the first loop writes, in order. */
  function PageIdPairs(pages: seq<PageView>): (ids: seq<nat>)
    ensures |ids| == 2 * |pages|
    ensures forall i :: 0 <= i < |pages| ==> ids[2 * i] == pages[i].objectId && ids[2 * i + 1] == pages[i].contentId
  {
    if pages == [] then []
    else PageIdPairs(pages[..|pages| - 1]) + [pages[|pages| - 1].objectId, pages[|pages| - 1].contentId]
  }

  /** The second loop of `__bytes__`: the fonts. */
  function FontBlobs(fonts: seq<Font>): (r: seq<seq<Byte>>)
    ensures |r| == |fonts|
    ensures forall i :: 0 <= i < |fonts| ==> r[i] == Fonts.Bytes(fonts[i])
  {
    seq(|fonts|, i requires 0 <= i < |fonts| => Fonts.Bytes(fonts[i]))
  }

  function FontObjectIds(fonts: seq<Font>): (ids: seq<nat>)
    ensures |ids| == |fonts|
    ensures forall i :: 0 <= i < |fonts| ==> ids[i] == fonts[i].objectId
  {
    seq(|fonts|, i requires 0 <= i < |fonts| => fonts[i].objectId)
  }

  /** The four document-level objects, in the order `__bytes__` writes them. */
  function FixedBlobs(v: DocView, stamp: string): seq<seq<Byte>>
  {
    [ MetadataBytes(v.metadata, stamp),
      Utf8(CatalogStr(v.catalogId, v.outlinesId, v.pageRootId)),
      Utf8(OutlinesStr(v.outlinesId)),
      Utf8(PageRootStr(v.pageRootId, PageObjectIds(v.pages))) ]
  }

  /** Every object `__bytes__` writes, in order. */
  function Blobs(v: DocView, stamp: string, compress: seq<Byte> -> seq<Byte>): seq<seq<Byte>>
  {
    FixedBlobs(v, stamp) + PageBlobs(v.pages, v.pageRootId, v.pageSize, compress) + FontBlobs(v.fonts)
  }

  /** The object number of each blob, in the same order. */
  function EmissionIds(v: DocView): seq<nat>
  {
    [v.metadata.objectId, v.catalogId, v.outlinesId, v.pageRootId]
    + PageIdPairs(v.pages) + FontObjectIds(v.fonts)
  }

  /** The buffer once every object is written. */
  function Body(v: DocView, stamp: string, compress: seq<Byte> -> seq<Byte>): seq<Byte>
  {
    Emit(FileStart, Blobs(v, stamp, compress))
  }

  /** The `xrefs` list once every object is written. */
  function Xrefs(v: DocView, stamp: string, compress: seq<Byte> -> seq<Byte>): seq<nat>
  {
    Offsets(FileStart, Blobs(v, stamp, compress))
  }

  /** What `_write_trailer(xref_position)` states: the number of entries with the
      free one, the info dictionary, the catalog and where the table starts. */
  function Trailer(v: DocView, stamp: string, compress: seq<Byte> -> seq<Byte>): TrailerInfo
  {
    TrailerInfo(|Xrefs(v, stamp, compress)| + 1, v.metadata.objectId, v.catalogId, |Body(v, stamp, compress)|)
  }

  /** The cross-reference table and the trailer, as bytes. */
  function Tail(offsets: seq<nat>, t: TrailerInfo): seq<Byte>
  {
    Utf8(XrefTable(offsets)) + Utf8(TrailerStr(t))
  }

  /** `bytes(document)`: the body, then the table and the trailer, whose
      `startxref` is the length of the body. */
  function Serialization(v: DocView, stamp: string, compress: seq<Byte> -> seq<Byte>): seq<Byte>
  {
    Body(v, stamp, compress) + Tail(Xrefs(v, stamp, compress), Trailer(v, stamp, compress))
  }

  /** The table and the trailer written after a body. */
  lemma TailAfter(body: seq<Byte>, offsets: seq<nat>, t: TrailerInfo)
    ensures body + Tail(offsets, t) == body + Utf8(XrefTable(offsets)) + Utf8(TrailerStr(t))
  {
  }

  /** The file is the body followed by the table and the trailer that name it. */
  lemma SerializationIs(v: DocView, stamp: string, compress: seq<Byte> -> seq<Byte>,
                        body: seq<Byte>, offsets: seq<nat>)
    requires body == Body(v, stamp, compress) && offsets == Xrefs(v, stamp, compress)
    ensures Serialization(v, stamp, compress)
         == body + Utf8(XrefTable(offsets))
            + Utf8(TrailerStr(TrailerInfo(|offsets| + 1, v.metadata.objectId, v.catalogId, |body|)))
  {
    var t := TrailerInfo(|offsets| + 1, v.metadata.objectId, v.catalogId, |body|);
    assert Trailer(v, stamp, compress) == t;
    TailAfter(body, offsets, t);
  }

  // ---------------------------------------------------------------------------
  // What a reader of the file can rely on

  lemma CatalogOpens(v: DocView)
    ensures StartsWithHeader(Utf8(CatalogStr(v.catalogId, v.outlinesId, v.pageRootId)), v.catalogId)
  {
    var ls := CatalogLines(v.catalogId, v.outlinesId, v.pageRootId);
    assert Join(ls, '\n') + "" == Join(ls, '\n');
    LinesOpenWithHeader(ls, v.catalogId, "");
  }

  lemma OutlinesOpen(v: DocView)
    ensures StartsWithHeader(Utf8(OutlinesStr(v.outlinesId)), v.outlinesId)
  {
    var ls := OutlinesLines(v.outlinesId);
    assert Join(ls, '\n') + "" == Join(ls, '\n');
    LinesOpenWithHeader(ls, v.outlinesId, "");
  }

  lemma PageRootOpens(v: DocView)
    ensures StartsWithHeader(Utf8(PageRootStr(v.pageRootId, PageObjectIds(v.pages))), v.pageRootId)
  {
    var ls := PageRootLines(v.pageRootId, PageObjectIds(v.pages));
    assert Join(ls, '\n') + "" == Join(ls, '\n');
    LinesOpenWithHeader(ls, v.pageRootId, "");
  }

  lemma PageOpens(p: PageView, rootId: nat, inherited: Size)
    ensures StartsWithHeader(PageBlob(p, rootId, inherited), p.objectId)
  {
    var ls := PageLines(p.objectId, rootId, EffectiveSize(p.pageSize, inherited), p.contentId, p.instructions);
    assert Join(ls, '\n') + "" == Join(ls, '\n');
    LinesOpenWithHeader(ls, p.objectId, "");
  }

  /** The four document-level objects open with their own headers. */
  lemma FixedBlobsOpen(v: DocView, stamp: string, k: nat)
    requires k < 4
    ensures StartsWithHeader(FixedBlobs(v, stamp)[k], [v.metadata.objectId, v.catalogId, v.outlinesId, v.pageRootId][k])
  {
    hide MetadataBytes;
    hide Utf8;
    hide CatalogStr;
    hide OutlinesStr;
    hide PageRootStr;
    hide StartsWithHeader;
    if k == 0 {
      MetadataFrame(v.metadata, stamp);
    } else if k == 1 {
      CatalogOpens(v);
    } else if k == 2 {
      OutlinesOpen(v);
    } else {
      PageRootOpens(v);
    }
  }

  /** Each page opens with its own header, and so does its content stream. */
  lemma {:induction false} PageBlobOpens(pages: seq<PageView>, rootId: nat, inherited: Size,
                      compress: seq<Byte> -> seq<Byte>, i: nat)
    requires i < |pages|
    ensures StartsWithHeader(PageBlobs(pages, rootId, inherited, compress)[2 * i], PageIdPairs(pages)[2 * i])
  {
    PageOpens(pages[i], rootId, inherited);
  }

  lemma {:induction false} ContentBlobOpens(pages: seq<PageView>, rootId: nat, inherited: Size,
                      compress: seq<Byte> -> seq<Byte>, i: nat)
    requires i < |pages|
    ensures StartsWithHeader(PageBlobs(pages, rootId, inherited, compress)[2 * i + 1], PageIdPairs(pages)[2 * i + 1])
  {
    ContentFrame(pages[i].contentId, pages[i].instructions, pages[i].encoding, compress);
  }

  /** Each page and each content stream opens with its own header. */
  lemma {:induction false} PageBlobsOpen(pages: seq<PageView>, rootId: nat, inherited: Size,
                      compress: seq<Byte> -> seq<Byte>, k: nat)
    requires k < 2 * |pages|
    ensures StartsWithHeader(PageBlobs(pages, rootId, inherited, compress)[k], PageIdPairs(pages)[k])
  {
    hide *;
    var i := k / 2;
    if k == 2 * i {
      PageBlobOpens(pages, rootId, inherited, compress, i);
    } else {
      assert k == 2 * i + 1;
      ContentBlobOpens(pages, rootId, inherited, compress, i);
    }
  }

  /** Two runs of blobs that open with their headers still do once joined. */
  lemma HeadersConcat(b1: seq<seq<Byte>>, i1: seq<nat>, b2: seq<seq<Byte>>, i2: seq<nat>)
    requires |b1| == |i1| && |b2| == |i2|
    requires forall k :: 0 <= k < |b1| ==> StartsWithHeader(b1[k], i1[k])
    requires forall k :: 0 <= k < |b2| ==> StartsWithHeader(b2[k], i2[k])
    ensures forall k :: 0 <= k < |b1 + b2| ==> StartsWithHeader((b1 + b2)[k], (i1 + i2)[k])
  {
    forall k | 0 <= k < |b1 + b2| ensures StartsWithHeader((b1 + b2)[k], (i1 + i2)[k]) {
      if k >= |b1| {
        assert (b1 + b2)[k] == b2[k - |b1|] && (i1 + i2)[k] == i2[k - |b1|];
      }
    }
  }

  /** Blob `k` opens with the header of object `EmissionIds(v)[k]`. */
  lemma BlobsOpenWithHeaders(v: DocView, stamp: string, compress: seq<Byte> -> seq<Byte>)
    ensures |Blobs(v, stamp, compress)| == |EmissionIds(v)|
    ensures forall k :: 0 <= k < |EmissionIds(v)| ==>
      StartsWithHeader(Blobs(v, stamp, compress)[k], EmissionIds(v)[k])
  {
    var fixed := FixedBlobs(v, stamp);
    var fixedIds := [v.metadata.objectId, v.catalogId, v.outlinesId, v.pageRootId];
    var pb := PageBlobs(v.pages, v.pageRootId, v.pageSize, compress);
    var pi := PageIdPairs(v.pages);
    var fb := FontBlobs(v.fonts);
    var fi := FontObjectIds(v.fonts);
    forall k | 0 <= k < 4 ensures StartsWithHeader(fixed[k], fixedIds[k]) {
      FixedBlobsOpen(v, stamp, k);
    }
    forall k | 0 <= k < |pb| ensures StartsWithHeader(pb[k], pi[k]) {
      PageBlobsOpen(v.pages, v.pageRootId, v.pageSize, compress, k);
    }
    forall k | 0 <= k < |fb| ensures StartsWithHeader(fb[k], fi[k]) {
      FontFrame(v.fonts[k]);
    }
    HeadersConcat(fixed, fixedIds, pb, pi);
    HeadersConcat(fixed + pb, fixedIds + pi, fb, fi);
  }

  /** Whatever follows the written objects, entry `k` points at blob `k`'s header. */
  lemma OffsetsAddressHeaders(start: seq<Byte>, blobs: seq<seq<Byte>>, ids: seq<nat>, s: seq<Byte>)
    requires |blobs| == |ids|
    requires forall k :: 0 <= k < |blobs| ==> StartsWithHeader(blobs[k], ids[k])
    requires Emit(start, blobs) <= s
    ensures forall k :: 0 <= k < |blobs| ==>
      Offsets(start, blobs)[k] < |s| && StartsWithHeader(s[Offsets(start, blobs)[k]..], ids[k])
  {
    var offs := Offsets(start, blobs);
    forall k | 0 <= k < |blobs|
      ensures offs[k] < |s| && StartsWithHeader(s[offs[k]..], ids[k])
    {
      BlobAtOffset(start, blobs, k);
      var h := HeaderBytes(ids[k]);
      assert h <= blobs[k];
      assert s[offs[k]..][..|h|] == blobs[k][..|h|];
    }
  }

  lemma BodyInFront(v: DocView, stamp: string, compress: seq<Byte> -> seq<Byte>)
    ensures Body(v, stamp, compress) <= Serialization(v, stamp, compress)
  {
  }

  /** Every entry of the cross-reference table is the position, in the finished
      file, of the header of the object written in that place. */
  lemma XrefEntriesAddressObjects(v: DocView, stamp: string, compress: seq<Byte> -> seq<Byte>)
    ensures |Xrefs(v, stamp, compress)| == |EmissionIds(v)|
    ensures forall k :: 0 <= k < |EmissionIds(v)| ==>
      Xrefs(v, stamp, compress)[k] < |Serialization(v, stamp, compress)| &&
      StartsWithHeader(Serialization(v, stamp, compress)[Xrefs(v, stamp, compress)[k]..], EmissionIds(v)[k])
  {
    BlobsOpenWithHeaders(v, stamp, compress);
    BodyInFront(v, stamp, compress);
    OffsetsAddressHeaders(FileStart, Blobs(v, stamp, compress), EmissionIds(v),
                          Serialization(v, stamp, compress));
  }

  /** The bytes after a body decode to the table and trailer text. */
  lemma TailDecodes(offs: seq<nat>, t: TrailerInfo)
    ensures AsciiDecode(Tail(offs, t)) == XrefTable(offs) + TrailerStr(t)
  {
    Utf8Append(XrefTable(offs), TrailerStr(t));
    TailAscii(offs, t);
    AsciiRoundTrip(XrefTable(offs) + TrailerStr(t));
  }

  /** The file opens with `%PDF-1.4`. */
  lemma FileOpens(v: DocView, stamp: string, compress: seq<Byte> -> seq<Byte>)
    ensures FileStart <= Serialization(v, stamp, compress)
  {
    StartStays(FileStart, Blobs(v, stamp, compress));
  }

  /** A reader of the table and trailer bytes recovers the offsets and the trailer. */
  lemma TailReads(offsets: seq<nat>, t: TrailerInfo)
    ensures ParseTail(AsciiDecode(Tail(offsets, t))) == Some((offsets, t))
  {
    TailDecodes(offsets, t);
    TailRoundTrip(offsets, t);
  }

  /** From the position `startxref` names, a
      reader finds the table of every entry and a trailer counting them with the
      free entry, naming the info dictionary and the catalog. */
  lemma FileTail(v: DocView, stamp: string, compress: seq<Byte> -> seq<Byte>)
    ensures |Body(v, stamp, compress)| <= |Serialization(v, stamp, compress)|
    ensures ParseTail(AsciiDecode(Serialization(v, stamp, compress)[|Body(v, stamp, compress)|..]))
         == Some((Xrefs(v, stamp, compress), Trailer(v, stamp, compress)))
    ensures Trailer(v, stamp, compress)
         == TrailerInfo(|Xrefs(v, stamp, compress)| + 1, v.metadata.objectId, v.catalogId, |Body(v, stamp, compress)|)
  {
    var s := Serialization(v, stamp, compress);
    var body := Body(v, stamp, compress);
    var tail := Tail(Xrefs(v, stamp, compress), Trailer(v, stamp, compress));
    assert s[|body|..] == tail;
    TailReads(Xrefs(v, stamp, compress), Trailer(v, stamp, compress));
  }

  /** The table and the trailer are plain ASCII. */
  lemma TailAscii(offsets: seq<nat>, t: TrailerInfo)
    ensures IsAscii(XrefTable(offsets) + TrailerStr(t))
  {
    XrefTableAscii(offsets);
    TrailerAscii(t);
    AsciiConcat(XrefTable(offsets), TrailerStr(t));
  }

  lemma XrefRowAscii(o: nat)
    ensures IsAscii(XrefRow(o))
  {
    Pad10Reads(o);
    DigitsAscii(Pad10(o));
    AsciiConcat(Pad10(o), " 00000 n ");
  }

  lemma XrefHeadAscii(count: nat)
    ensures forall i :: 0 <= i < 3 ==> IsAscii(XrefHeadLines(count)[i])
  {
    NatStrAscii(count);
    AsciiConcat("0 ", NatStr(count));
  }

  lemma XrefLinesAscii(offsets: seq<nat>)
    ensures forall i :: 0 <= i < |XrefLines(offsets)| ==> IsAscii(XrefLines(offsets)[i])
  {
    var head := XrefHeadLines(|offsets| + 1);
    var rows := RenderEach(offsets, XrefRow);
    XrefHeadAscii(|offsets| + 1);
    var ls := head + rows;
    assert |ls| == 3 + |offsets|;
    forall i | 0 <= i < |ls| ensures IsAscii(ls[i]) {
      if i < 3 {
        assert ls[i] == head[i];
      } else {
        assert ls[i] == rows[i - 3] == XrefRow(offsets[i - 3]);
        XrefRowAscii(offsets[i - 3]);
      }
    }
  }

  lemma XrefTableAscii(offsets: seq<nat>)
    ensures IsAscii(XrefTable(offsets))
  {
    var lines := XrefLines(offsets);
    var ls := lines + [""];
    XrefLinesAscii(offsets);
    forall i | 0 <= i < |ls| ensures IsAscii(ls[i]) {
      if i < |lines| { assert ls[i] == lines[i]; }
    }
    AsciiLines(ls);
    TerminatedJoin(lines, '\n');
  }

  lemma TrailerAscii(t: TrailerInfo)
    ensures IsAscii(TrailerStr(t))
  {
    var ls := TrailerLines(t);
    NatStrAscii(t.size);
    NatStrAscii(t.infoId);
    NatStrAscii(t.rootId);
    NatStrAscii(t.xrefPosition);
    forall j | 0 <= j < 8 ensures IsAscii(ls[j]) {
      if j == 1 {
        AsciiConcat("<< /Size ", NatStr(t.size));
      } else if j == 2 {
        AsciiConcat("   /Info ", NatStr(t.infoId));
        AsciiConcat("   /Info " + NatStr(t.infoId), " 0 R");
      } else if j == 3 {
        AsciiConcat("   /Root ", NatStr(t.rootId));
        AsciiConcat("   /Root " + NatStr(t.rootId), " 0 R");
      }
    }
    AsciiLines(ls);
  }

  /** Entry `k` of the table stands, by its place, for object `k + 1`; it
      addresses that object's header exactly when object `k + 1` was the one
      written in place `k`. */
  lemma XrefEntryNamesItsObject(v: DocView, stamp: string, compress: seq<Byte> -> seq<Byte>, k: nat)
    requires k < |EmissionIds(v)|
    ensures k < |Xrefs(v, stamp, compress)|
    ensures Xrefs(v, stamp, compress)[k] < |Serialization(v, stamp, compress)|
    ensures StartsWithHeader(Serialization(v, stamp, compress)[Xrefs(v, stamp, compress)[k]..], k + 1)
        <==> EmissionIds(v)[k] == k + 1
  {
    XrefEntriesAddressObjects(v, stamp, compress);
    hide Serialization;
    hide Xrefs;
    hide EmissionIds;
    hide StartsWithHeader;
    var s := Serialization(v, stamp, compress);
    var o := Xrefs(v, stamp, compress)[k];
    if StartsWithHeader(s[o..], k + 1) {
      HeadersExclusive(s[o..], k + 1, EmissionIds(v)[k]);
    }
  }

  // ---------------------------------------------------------------------------
  // The empty document

  /** What `Document()` holds before any page or font is added. */
  function EmptyDocument(): DocView
  {
    DocView(NewMetadata(1), 2, 3, 4, A4.Dimensions(), [], [])
  }

  /** Serializing the empty document writes objects 1 to 4 in that order, at
      offsets 9, 125, 196 and 245; the table starts at 291 and the trailer
      counts five entries and names the info dictionary 1 and the catalog 2.
      The time stamp is the fourteen digits `strftime` writes. */
  lemma EmptyDocumentLayout(stamp: string, compress: seq<Byte> -> seq<Byte>)
    requires |stamp| == 14 && IsAscii(stamp)
    ensures EmissionIds(EmptyDocument()) == [1, 2, 3, 4]
    ensures Xrefs(EmptyDocument(), stamp, compress) == [9, 125, 196, 245]
    ensures |Body(EmptyDocument(), stamp, compress)| == 291
    ensures Trailer(EmptyDocument(), stamp, compress) == TrailerInfo(5, 1, 2, 291)
  {
    var v := EmptyDocument();
    assert v.metadata == Metadata(1, "", "") && v.catalogId == 2 && v.outlinesId == 3 && v.pageRootId == 4;
    assert v.pages == [] && v.fonts == [];
    assert |NatStr(1)| == 1 && |NatStr(2)| == 1 && |NatStr(3)| == 1 && |NatStr(4)| == 1;
    hide EmptyDocument;
    NoPagesBlobs(v, stamp, compress);
    NoPagesLayout(v, stamp, compress);
  }

  /** What a reader finds in the file of the empty document: the four
      objects where the table says, and the table and trailer after byte 291. */
  lemma EmptyDocumentFile(stamp: string, compress: seq<Byte> -> seq<Byte>)
    requires |stamp| == 14 && IsAscii(stamp)
    ensures Xrefs(EmptyDocument(), stamp, compress) == [9, 125, 196, 245]
    ensures 291 <= |Serialization(EmptyDocument(), stamp, compress)|
    ensures ParseTail(AsciiDecode(Serialization(EmptyDocument(), stamp, compress)[291..]))
         == Some(([9, 125, 196, 245], TrailerInfo(5, 1, 2, 291)))
    ensures forall k :: 0 <= k < 4 ==>
      Xrefs(EmptyDocument(), stamp, compress)[k] < |Serialization(EmptyDocument(), stamp, compress)| &&
      StartsWithHeader(Serialization(EmptyDocument(), stamp, compress)[Xrefs(EmptyDocument(), stamp, compress)[k]..], k + 1)
  {
    EmptyDocumentLayout(stamp, compress);
    var v := EmptyDocument();
    hide EmptyDocument;
    LaidOutFile(v, stamp, compress);
  }

  /** The file of any document laid out as the empty one. */
  lemma LaidOutFile(v: DocView, stamp: string, compress: seq<Byte> -> seq<Byte>)
    requires EmissionIds(v) == [1, 2, 3, 4]
    requires Xrefs(v, stamp, compress) == [9, 125, 196, 245]
    requires |Body(v, stamp, compress)| == 291
    requires Trailer(v, stamp, compress) == TrailerInfo(5, 1, 2, 291)
    ensures 291 <= |Serialization(v, stamp, compress)|
    ensures ParseTail(AsciiDecode(Serialization(v, stamp, compress)[291..]))
         == Some(([9, 125, 196, 245], TrailerInfo(5, 1, 2, 291)))
    ensures forall k :: 0 <= k < 4 ==>
      Xrefs(v, stamp, compress)[k] < |Serialization(v, stamp, compress)| &&
      StartsWithHeader(Serialization(v, stamp, compress)[Xrefs(v, stamp, compress)[k]..], k + 1)
  {
    hide *;
    FileTail(v, stamp, compress);
    XrefEntriesAddressObjects(v, stamp, compress);
  }

  /** The byte layout of a document without pages, whose title and creator are
      empty and whose four object numbers are single digits. */
  lemma NoPagesLayout(v: DocView, stamp: string, compress: seq<Byte> -> seq<Byte>)
    requires v.pages == [] && v.fonts == [] && v.metadata.title == "" && v.metadata.creator == ""
    requires |NatStr(v.metadata.objectId)| == 1 && |NatStr(v.catalogId)| == 1
    requires |NatStr(v.outlinesId)| == 1 && |NatStr(v.pageRootId)| == 1
    requires |stamp| == 14 && IsAscii(stamp)
    ensures Xrefs(v, stamp, compress) == [9, 125, 196, 245]
    ensures |Body(v, stamp, compress)| == 291
  {
    var fixed := FixedBlobs(v, stamp);
    NoPagesBlobs(v, stamp, compress);
    NoPagesLengths(v, stamp);
    assert |fixed[0]| == 115 && |fixed[1]| == 70 && |fixed[2]| == 48 && |fixed[3]| == 45;
    hide FixedBlobs, Blobs, NatStr, Emit, Offsets;
    EmitFour(FileStart, fixed[0], fixed[1], fixed[2], fixed[3]);
    assert [fixed[0], fixed[1], fixed[2], fixed[3]] == fixed;
  }

  /** A document without pages or fonts writes only its four document-level
      objects. */
  lemma NoPagesBlobs(v: DocView, stamp: string, compress: seq<Byte> -> seq<Byte>)
    requires v.pages == [] && v.fonts == []
    ensures Blobs(v, stamp, compress) == FixedBlobs(v, stamp)
    ensures EmissionIds(v) == [v.metadata.objectId, v.catalogId, v.outlinesId, v.pageRootId]
  {
    hide FixedBlobs;
    assert PageBlobs(v.pages, v.pageRootId, v.pageSize, compress) == [];
    assert FontBlobs(v.fonts) == [];
    assert PageIdPairs(v.pages) == [] && FontObjectIds(v.fonts) == [];
  }

  /** Without pages, and with an empty title and creator, the four objects'
      lengths depend only on their numerals. */
  lemma NoPagesLengths(v: DocView, stamp: string)
    requires v.pages == [] && v.metadata.title == "" && v.metadata.creator == ""
    requires |stamp| == 14 && IsAscii(stamp)
    ensures |FixedBlobs(v, stamp)| == 4
    ensures |FixedBlobs(v, stamp)[0]| == |NatStr(v.metadata.objectId)| + 114
    ensures |FixedBlobs(v, stamp)[1]| == |NatStr(v.catalogId)| + |NatStr(v.outlinesId)| + |NatStr(v.pageRootId)| + 67
    ensures |FixedBlobs(v, stamp)[2]| == |NatStr(v.outlinesId)| + 47
    ensures |FixedBlobs(v, stamp)[3]| == |NatStr(v.pageRootId)| + 44
  {
    var fixed := FixedBlobs(v, stamp);
    assert |fixed[0]| == |NatStr(v.metadata.objectId)| + 114 by {
      MetadataLength(v.metadata, stamp);
    }
    assert |fixed[1]| == |NatStr(v.catalogId)| + |NatStr(v.outlinesId)| + |NatStr(v.pageRootId)| + 67 by {
      CatalogLength(v.catalogId, v.outlinesId, v.pageRootId);
    }
    assert |fixed[2]| == |NatStr(v.outlinesId)| + 47 by {
      OutlinesLength(v.outlinesId);
    }
    assert |fixed[3]| == |NatStr(v.pageRootId)| + 44 by {
      assert PageObjectIds(v.pages) == [];
      EmptyPageRootLength(v.pageRootId);
    }
  }

  // ---------------------------------------------------------------------------
  // The empty document, byte for byte

  /** What `strftime('D%Y%m%d%H%M%S')` gives after its `D` for 8 October 2010, 00:00:00. */
  const TestStamp := "20101008000000"

  /** `(FE FF 00 P 00 y 00 P 00 d 00 f)`: the producer as the test spells it out. */
  const ProducerExpected: seq<Byte> :=
    [0x28, 0xFE, 0xFF, 0x00, 0x50, 0x00, 0x79, 0x00, 0x50, 0x00, 0x64, 0x00, 0x66, 0x29]

  /** The expected lines from the newline after the producer to the end of the
      file, object by object; the first, empty, line stands for that newline. */
  const InfoEndExpected := ["", "  /CreationDate (D: D20101008000000Z)", ">>", "endobj"]
  const CatalogExpected := ["2 0 obj", "<< /Type /Catalog", "   /Outlines 3 0 R", "   /Pages 4 0 R", ">>", "endobj"]
  const OutlinesExpected := ["3 0 obj", "<< /Type /Outlines", "   /Count 0", ">>", "endobj"]
  const PageRootExpected := ["4 0 obj", "<< /Type /Pages", "   /Count 0", ">>", "endobj"]
  const XrefExpected := [ "xref", "0 5", "0000000000 65535 f ", "0000000009 00000 n ",
                          "0000000125 00000 n ", "0000000196 00000 n ", "0000000245 00000 n " ]
  const TrailerExpected := ["trailer", "<< /Size 5", "   /Info 1 0 R", "   /Root 2 0 R", ">>", "startxref", "291", "%%EOF"]

  /** The bytes tests/pdf/test_pdfdocument.py expects from `bytes(Document())`
      with that time stamp: ASCII throughout except the three text strings of the
      info dictionary, which are spelled out byte by byte. */
  const EmptyDocumentExpected: seq<Byte> :=
    OpeningExpected
    + Utf8(Join(InfoEndExpected + CatalogExpected + OutlinesExpected + PageRootExpected
                + XrefExpected + TrailerExpected, '\n'))

  /** The expected bytes up to the producer's value. */
  const OpeningExpected: seq<Byte> :=
    Ascii("%PDF-1.4\n1 0 obj\n<<\n  /Title ") + [0x28, 0xFE, 0xFF, 0x29]
    + Ascii("\n  /Creator ") + [0x28, 0xFE, 0xFF, 0x29]
    + Ascii("\n  /Producer ") + ProducerExpected

  /** `bytes(Document())` on 8 October 2010 at midnight is, byte for byte, what
      tests/pdf/test_pdfdocument.py expects. */
  lemma EmptyDocumentBytesExpected(compress: seq<Byte> -> seq<Byte>)
    ensures Serialization(EmptyDocument(), TestStamp, compress) == EmptyDocumentExpected
  {
    var v := EmptyDocument();
    assert IsAscii(TestStamp);
    EmptyDocumentLayout(TestStamp, compress);
    NoPagesBlobs(v, TestStamp, compress);
    var m := MetadataBytes(NewMetadata(1), TestStamp);
    var c, o, r := CatalogStr(2, 3, 4), OutlinesStr(3), PageRootStr(4, []);
    assert FixedBlobs(v, TestStamp) == [m, Utf8(c), Utf8(o), Utf8(r)] by {
      assert PageObjectIds(v.pages) == [];
    }
    var x, t := XrefTable([9, 125, 196, 245]), TrailerStr(TrailerInfo(5, 1, 2, 291));
    var q := "\n  /CreationDate (D: " + ("D" + TestStamp) + "Z)\n>>\nendobj";
    var pfx := OpeningExpected;
    EmitFour(FileStart, m, Utf8(c), Utf8(o), Utf8(r));
    TailAfter(Body(v, TestStamp, compress), [9, 125, 196, 245], TrailerInfo(5, 1, 2, 291));
    assert Serialization(v, TestStamp, compress)
        == FileStart + m + [10] + Utf8(c) + [10] + Utf8(o) + [10] + Utf8(r) + [10] + Utf8(x) + Utf8(t);
    InfoBytesExpected();
    Utf8Objects(q, c, o, r, x, t);
    EmptyTailText();
    assert EmptyDocumentExpected
        == pfx + Utf8(Join(InfoEndExpected + CatalogExpected + OutlinesExpected + PageRootExpected
                           + XrefExpected + TrailerExpected, '\n'));
    hide *;
    RegroupFile(FileStart, m, pfx, Utf8(q), Utf8(c), Utf8(o), Utf8(r), Utf8(x), Utf8(t), [10]);
  }

  /** The file written as the body then the tail, regrouped after the producer. */
  lemma RegroupFile<T>(s: seq<T>, m: seq<T>, p: seq<T>, q: seq<T>, c: seq<T>, o: seq<T>, r: seq<T>, x: seq<T>, t: seq<T>, nl: seq<T>)
    requires s + m == p + q
    ensures s + m + nl + c + nl + o + nl + r + nl + x + t == p + (q + nl + c + nl + o + nl + r + nl + x + t)
  {
  }

  lemma CatalogLinesExpected()
    ensures CatalogLines(2, 3, 4) == CatalogExpected
  {
    assert HeaderLine(2) == "2 0 obj" by { assert NatStr(2) == "2"; }
    assert "   /Outlines " + NatStr(3) + " 0 R" == "   /Outlines 3 0 R" by { assert NatStr(3) == "3"; }
    assert "   /Pages " + NatStr(4) + " 0 R" == "   /Pages 4 0 R" by { assert NatStr(4) == "4"; }
  }

  lemma OutlinesLinesExpected()
    ensures OutlinesLines(3) == OutlinesExpected
  {
    assert HeaderLine(3) == "3 0 obj" by { assert NatStr(3) == "3"; }
  }

  lemma PageRootLinesExpected()
    ensures PageRootLines(4, []) == PageRootExpected
  {
    assert HeaderLine(4) == "4 0 obj" by { assert NatStr(4) == "4"; }
    assert "   /Count " + NatStr(0) == "   /Count 0" by { assert NatStr(0) == "0"; }
    assert RenderEach([], KidsLine) == [];
    assert PageRootLines(4, []) == [HeaderLine(4), "<< /Type /Pages"] + [] + ["   /Count " + NatStr(0), ">>", "endobj"];
  }

  lemma ZerosSeven()
    ensures Zeros(7) == "0000000"
  {
    assert Zeros(1) == "0";
    assert Zeros(3) == "000";
    assert Zeros(5) == "00000";
  }

  lemma XrefLinesExpected()
    ensures XrefLines([9, 125, 196, 245]) == XrefExpected
  {
    XrefRowsExpected();
    assert "0 " + NatStr(5) == "0 5" by { assert NatStr(5) == "5"; }
    hide XrefRow;
    var rows := RenderEach([9, 125, 196, 245], XrefRow);
    assert rows == [XrefRow(9), XrefRow(125), XrefRow(196), XrefRow(245)];
  }

  lemma TrailerLinesExpected()
    ensures TrailerLines(TrailerInfo(5, 1, 2, 291)) == TrailerExpected
  {
    assert "<< /Size " + NatStr(5) == "<< /Size 5" by { assert NatStr(5) == "5"; }
    assert "   /Info " + NatStr(1) + " 0 R" == "   /Info 1 0 R" by { assert NatStr(1) == "1"; }
    assert "   /Root " + NatStr(2) + " 0 R" == "   /Root 2 0 R" by { assert NatStr(2) == "2"; }
    assert NatStr(291) == "291" by { assert NatStr(29) == "29"; }
  }

  lemma InfoEndLinesExpected()
    ensures "\n  /CreationDate (D: " + ("D" + TestStamp) + "Z)\n>>\nendobj" == Join(InfoEndExpected, '\n')
  {
    var date := "  /CreationDate (D: ";
    InfoEndPieces();
    JoinFour("", InfoEndExpected[1], ">>", "endobj", '\n');
    hide Join;
    Regroup("\n", date, "D" + TestStamp, "Z)", "\n", ">>" + "\n" + "endobj");
  }

  lemma InfoEndPieces()
    ensures "\n  /CreationDate (D: " == "\n" + "  /CreationDate (D: "
    ensures "Z)\n>>\nendobj" == "Z)" + ("\n" + (">>" + "\n" + "endobj"))
    ensures InfoEndExpected[1] == "  /CreationDate (D: " + ("D" + TestStamp) + "Z)"
    ensures InfoEndExpected == ["", InfoEndExpected[1], ">>", "endobj"]
  {
  }

  /** Four lines joined. */
  lemma JoinFour(a: string, b: string, c: string, d: string, sep: char)
    ensures Join([a, b, c, d], sep) == a + [sep] + (b + [sep] + (c + [sep] + d))
  {
    assert Join([d], sep) == d;
    assert Join([c, d], sep) == c + [sep] + d by { assert [c, d][1..] == [d]; }
    assert Join([b, c, d], sep) == b + [sep] + Join([c, d], sep) by { assert [b, c, d][1..] == [c, d]; }
    assert [a, b, c, d][1..] == [b, c, d];
  }

  /** From the newline after the producer to `%%EOF`, the text of the empty
      document is the expected lines. */
  lemma EmptyTailText()
    ensures "\n  /CreationDate (D: " + ("D" + TestStamp) + "Z)\n>>\nendobj"
            + "\n" + CatalogStr(2, 3, 4) + "\n" + OutlinesStr(3) + "\n" + PageRootStr(4, [])
            + "\n" + XrefTable([9, 125, 196, 245]) + TrailerStr(TrailerInfo(5, 1, 2, 291))
         == Join(InfoEndExpected + CatalogExpected + OutlinesExpected + PageRootExpected
                 + XrefExpected + TrailerExpected, '\n')
  {
    InfoEndLinesExpected();
    CatalogLinesExpected();
    OutlinesLinesExpected();
    PageRootLinesExpected();
    XrefLinesExpected();
    TrailerLinesExpected();
    JoinObjects(InfoEndExpected, CatalogExpected, OutlinesExpected, PageRootExpected, XrefExpected, TrailerExpected,
                "\n  /CreationDate (D: " + ("D" + TestStamp) + "Z)\n>>\nendobj",
                CatalogStr(2, 3, 4), OutlinesStr(3), PageRootStr(4, []),
                XrefTable([9, 125, 196, 245]), TrailerStr(TrailerInfo(5, 1, 2, 291)));
  }

  /** Objects joined by newlines, then a table whose every line ends in one and
      the trailer: all their lines joined. */
  lemma JoinObjects(ie: seq<string>, ce: seq<string>, oe: seq<string>, re: seq<string>, xe: seq<string>, te: seq<string>,
                    i: string, c: string, o: string, r: string, x: string, t: string)
    requires |ie| >= 1 && |ce| >= 1 && |oe| >= 1 && |re| >= 1 && |xe| >= 1 && |te| >= 1
    requires i == Join(ie, '\n') && c == Join(ce, '\n') && o == Join(oe, '\n') && r == Join(re, '\n')
    requires x == Terminated(xe, '\n') && t == Join(te, '\n')
    ensures i + "\n" + c + "\n" + o + "\n" + r + "\n" + x + t == Join(ie + ce + oe + re + xe + te, '\n')
  {
    hide Join, Terminated;
    JoinAppend(ie, ce, '\n');
    JoinAppend(ie + ce, oe, '\n');
    JoinAppend(ie + ce + oe, re, '\n');
    TerminatedThenJoin(xe, te, '\n');
    JoinAppend(ie + ce + oe + re, xe + te, '\n');
    assert ie + ce + oe + re + (xe + te) == ie + ce + oe + re + xe + te;
  }

  /** The file header and the info dictionary up to the producer's value are
      the expected bytes, and the rest of the dictionary is the expected text. */
  lemma InfoBytesExpected()
    ensures FileStart + MetadataBytes(NewMetadata(1), TestStamp)
         == OpeningExpected + Utf8("\n  /CreationDate (D: " + ("D" + TestStamp) + "Z)\n>>\nendobj")
  {
    var n, d := Utf8(NatStr(1)), Utf8("D" + TestStamp);
    var e := EncodeMetadata("");
    OpeningBytes();
    ProducerBytes();
    DateBytes();
    hide Utf8, Ascii, EncodeMetadata, NatStr;
    RegroupInfo(FileStart, n, TitleKey, e, CreatorKey, e, ProducerKey, ProducerField, DateKey, d, MetadataEnd);
  }

  lemma OpeningBytes()
    ensures FileStart + Utf8(NatStr(1)) + TitleKey == Ascii("%PDF-1.4\n1 0 obj\n<<\n  /Title ")
  {
    assert NatStr(1) == "1";
    Utf8IsAscii("1");
  }

  lemma ProducerBytes()
    ensures ProducerField == ProducerExpected
  {
    assert IsAscii(Producer);
    EncodeMetadataAscii(Producer);
  }

  lemma DateBytes()
    ensures DateKey + Utf8("D" + TestStamp) + MetadataEnd
         == Utf8("\n  /CreationDate (D: " + ("D" + TestStamp) + "Z)\n>>\nendobj")
  {
    AsciiAround("\n  /CreationDate (D: ", "D" + TestStamp, "Z)\n>>\nendobj");
  }

  /** Text between two ASCII literals, encoded. */
  lemma AsciiAround(a: string, b: string, c: string)
    requires IsAscii(a) && IsAscii(c)
    ensures Ascii(a) + Utf8(b) + Ascii(c) == Utf8(a + b + c)
  {
    Utf8IsAscii(a);
    Utf8IsAscii(c);
    Utf8Append(a, b);
    Utf8Append(a + b, c);
  }

  /** Eleven pieces, the last ten grouped from the right, regrouped after the eighth. */
  lemma RegroupInfo<T>(s: seq<T>, n: seq<T>, k1: seq<T>, e1: seq<T>, k2: seq<T>, e2: seq<T>,
                       k3: seq<T>, p: seq<T>, k4: seq<T>, d: seq<T>, z: seq<T>)
    ensures s + (n + (k1 + (e1 + (k2 + (e2 + (k3 + (p + (k4 + (d + z)))))))))
         == (s + n + k1) + e1 + k2 + e2 + k3 + p + (k4 + d + z)
  {
  }

  /** Text pieces with newlines between them, encoded one by one. */
  lemma Utf8Objects(q: string, c: string, o: string, r: string, x: string, t: string)
    ensures Utf8(q + "\n" + c + "\n" + o + "\n" + r + "\n" + x + t)
         == Utf8(q) + [10] + Utf8(c) + [10] + Utf8(o) + [10] + Utf8(r) + [10] + Utf8(x) + Utf8(t)
  {
    assert Utf8("\n") == [10];
    Utf8Append(q, "\n");
    Utf8Append(q + "\n", c);
    Utf8Append(q + "\n" + c, "\n");
    Utf8Append(q + "\n" + c + "\n", o);
    Utf8Append(q + "\n" + c + "\n" + o, "\n");
    Utf8Append(q + "\n" + c + "\n" + o + "\n", r);
    Utf8Append(q + "\n" + c + "\n" + o + "\n" + r, "\n");
    Utf8Append(q + "\n" + c + "\n" + o + "\n" + r + "\n", x);
    Utf8Append(q + "\n" + c + "\n" + o + "\n" + r + "\n" + x, t);
  }

  /** Six pieces in a row, however they are grouped. */
  lemma Regroup<T>(a: seq<T>, b: seq<T>, c: seq<T>, d: seq<T>, e: seq<T>, f: seq<T>)
    ensures (a + b) + c + (d + (e + f)) == a + ((b + c + d) + e + f)
  {
  }

  lemma XrefRowsExpected()
    ensures XrefRow(9) == "0000000009 00000 n " && XrefRow(125) == "0000000125 00000 n "
    ensures XrefRow(196) == "0000000196 00000 n " && XrefRow(245) == "0000000245 00000 n "
  {
    Pad10Expected();
  }

  lemma Pad10Expected()
    ensures Pad10(9) == "0000000009" && Pad10(125) == "0000000125"
    ensures Pad10(196) == "0000000196" && Pad10(245) == "0000000245"
  {
    ZerosSeven();
    assert Zeros(9) == "000000000" by { assert Zeros(8) == "00000000"; }
    assert NatStr(9) == "9" && NatStr(125) == "125" && NatStr(196) == "196" && NatStr(245) == "245" by {
      assert NatStr(12) == "12" && NatStr(19) == "19" && NatStr(24) == "24";
    }
    hide Zeros, NatStr;
  }

  // ---------------------------------------------------------------------
  // The cross-reference table by object number
  // ---------------------------------------------------------------------

  /** Object numbers `1 .. n`, each handed out exactly once: what a counter
      that starts at 1 and counts up gives every object it numbers. */
  predicate IdsIssued(ids: seq<nat>, n: nat)
  {
    && |ids| == n
    && Distinct(ids)
    && (forall i :: 0 <= i < |ids| ==> 1 <= ids[i] <= n)
    && (forall m :: 1 <= m <= n ==> m in ids)
  }

  /** Handing out the next number keeps the numbers issued. */
  lemma IdsIssuedAppend(ids: seq<nat>, n: nat)
    requires IdsIssued(ids, n)
    ensures IdsIssued(ids + [n + 1], n + 1)
  {
    var r := ids + [n + 1];
    forall m | 1 <= m <= n + 1 ensures m in r {
      if m <= n {
        assert m in ids;
      }
    }
    forall i, j | 0 <= i < j < |r| ensures r[i] != r[j] {
      if j == |ids| {
        assert r[i] == ids[i];
      }
    }
  }

  /** Handing out the next two numbers to a page and its content keeps the
      numbers issued, wherever the pair is listed. */
  lemma IdsIssuedInsert(front: seq<nat>, back: seq<nat>, n: nat)
    requires IdsIssued(front + back, n)
    ensures IdsIssued(front + [n + 1, n + 2] + back, n + 2)
  {
    var old_ := front + back;
    var r := front + [n + 1, n + 2] + back;
    forall m | 1 <= m <= n + 2 ensures m in r {
      if m <= n {
        assert m in old_;
        assert m in front || m in back;
      }
    }
    forall i | 0 <= i < |r| ensures 1 <= r[i] <= n + 2 && (r[i] > n <==> i == |front| || i == |front| + 1) {
      if i < |front| {
        assert r[i] == old_[i];
      } else if i >= |front| + 2 {
        assert r[i] == old_[i - 2];
      }
    }
    forall i, j | 0 <= i < j < |r| ensures r[i] != r[j] {
      if j < |front| {
        assert r[i] == old_[i] && r[j] == old_[j];
      } else if i >= |front| + 2 {
        assert r[i] == old_[i - 2] && r[j] == old_[j - 2];
      } else if i < |front| && j >= |front| + 2 {
        assert r[i] == old_[i] && r[j] == old_[j - 2];
      }
    }
  }

  /** `Blobs` and `EmissionIds` run in step. */
  lemma BlobsCount(v: DocView, stamp: string, compress: seq<Byte> -> seq<Byte>)
    ensures |Xrefs(v, stamp, compress)| == |Blobs(v, stamp, compress)| == |EmissionIds(v)|
  {
  }

  /** `xs` listed by object number: place `k` takes the entry of object `k + 1`,
      where `ids` says which object each entry of `xs` belongs to. */
  function ByNumber(ids: seq<nat>, xs: seq<nat>): (r: seq<nat>)
    requires |xs| == |ids|
    requires forall m :: 1 <= m <= |ids| ==> m in ids
    ensures |r| == |ids|
    ensures forall k :: 0 <= k < |r| ==> r[k] in xs
  {
    seq(|ids|, k requires 0 <= k < |ids| => xs[FirstIndex(ids, k + 1)])
  }

  /** The table a reader of section 7.5.4 of ISO 32000-1 expects from a
      subsection that starts at object 0 and lists `n` entries after the free
      one: entry `k` is the position of object `k + 1`, wherever `__bytes__`
      wrote it. */
  function XrefsByNumber(v: DocView, stamp: string, compress: seq<Byte> -> seq<Byte>): (offs: seq<nat>)
    requires IdsIssued(EmissionIds(v), |EmissionIds(v)|)
    ensures |offs| == |Xrefs(v, stamp, compress)|
  {
    BlobsCount(v, stamp, compress);
    ByNumber(EmissionIds(v), Xrefs(v, stamp, compress))
  }

  /** The file with the table listed by object number. */
  function SerializationByNumber(v: DocView, stamp: string, compress: seq<Byte> -> seq<Byte>): seq<Byte>
    requires IdsIssued(EmissionIds(v), |EmissionIds(v)|)
  {
    Body(v, stamp, compress) + Tail(XrefsByNumber(v, stamp, compress), Trailer(v, stamp, compress))
  }

  /** Listed by number, the positions of blobs that open with their headers
      address the header of object `k + 1` at place `k`. */
  lemma ByNumberAddresses(start: seq<Byte>, blobs: seq<seq<Byte>>, ids: seq<nat>, s: seq<Byte>)
    requires |blobs| == |ids|
    requires forall m :: 1 <= m <= |ids| ==> m in ids
    requires forall k :: 0 <= k < |blobs| ==> StartsWithHeader(blobs[k], ids[k])
    requires Emit(start, blobs) <= s
    ensures forall k :: 0 <= k < |ids| ==>
      ByNumber(ids, Offsets(start, blobs))[k] < |s| &&
      StartsWithHeader(s[ByNumber(ids, Offsets(start, blobs))[k]..], k + 1)
  {
    forall k | 0 <= k < |ids|
      ensures ByNumber(ids, Offsets(start, blobs))[k] < |s|
      ensures StartsWithHeader(s[ByNumber(ids, Offsets(start, blobs))[k]..], k + 1)
    {
      ByNumberEntry(start, blobs, ids, s, k);
    }
  }

  /** Place `k` of the by-number list is the offset of the first blob of object `k + 1`. */
  lemma ByNumberEntry(start: seq<Byte>, blobs: seq<seq<Byte>>, ids: seq<nat>, s: seq<Byte>, k: nat)
    requires |blobs| == |ids| && k < |ids|
    requires forall m :: 1 <= m <= |ids| ==> m in ids
    requires forall k :: 0 <= k < |blobs| ==> StartsWithHeader(blobs[k], ids[k])
    requires Emit(start, blobs) <= s
    ensures ByNumber(ids, Offsets(start, blobs))[k] < |s|
    ensures StartsWithHeader(s[ByNumber(ids, Offsets(start, blobs))[k]..], k + 1)
  {
    hide Emit, Offsets, StartsWithHeader;
    assert k + 1 in ids;
    var j := FirstIndex(ids, k + 1);
    assert ByNumber(ids, Offsets(start, blobs))[k] == Offsets(start, blobs)[j];
    assert StartsWithHeader(blobs[j], k + 1);
    hide *;
    OffsetAddressesHeader(start, blobs, k + 1, s, j);
  }

  /** Entry `k` points at blob `k`'s header, whatever follows the written objects. */
  lemma OffsetAddressesHeader(start: seq<Byte>, blobs: seq<seq<Byte>>, id: nat, s: seq<Byte>, k: nat)
    requires k < |blobs| && StartsWithHeader(blobs[k], id)
    requires Emit(start, blobs) <= s
    ensures Offsets(start, blobs)[k] < |s| && StartsWithHeader(s[Offsets(start, blobs)[k]..], id)
  {
    var offs := Offsets(start, blobs);
    BlobAtOffset(start, blobs, k);
    var h := HeaderBytes(id);
    assert h <= blobs[k];
    assert s[offs[k]..][..|h|] == blobs[k][..|h|];
  }

  /** Listed by number, entry `k` of the table addresses the header of object
      `k + 1` for every document whose numbers were issued by its counter,
      whatever order pages and fonts were created in. */
  lemma XrefsByNumberAddressObjects(v: DocView, stamp: string, compress: seq<Byte> -> seq<Byte>)
    requires IdsIssued(EmissionIds(v), |EmissionIds(v)|)
    ensures |XrefsByNumber(v, stamp, compress)| == |EmissionIds(v)|
    ensures forall k :: 0 <= k < |EmissionIds(v)| ==>
      XrefsByNumber(v, stamp, compress)[k] < |SerializationByNumber(v, stamp, compress)| &&
      StartsWithHeader(SerializationByNumber(v, stamp, compress)[XrefsByNumber(v, stamp, compress)[k]..], k + 1)
  {
    BlobsOpenWithHeaders(v, stamp, compress);
    BlobsCount(v, stamp, compress);
    var ids := EmissionIds(v);
    var blobs := Blobs(v, stamp, compress);
    var s := SerializationByNumber(v, stamp, compress);
    assert XrefsByNumber(v, stamp, compress) == ByNumber(ids, Offsets(FileStart, blobs));
    assert Emit(FileStart, blobs) <= s;
    hide SerializationByNumber, XrefsByNumber, Blobs, EmissionIds, Emit, Offsets;
    ByNumberAddresses(FileStart, blobs, ids, s);
  }

  /** The table listed by number still reads back, with the same trailer. */
  lemma ByNumberTail(v: DocView, stamp: string, compress: seq<Byte> -> seq<Byte>)
    requires IdsIssued(EmissionIds(v), |EmissionIds(v)|)
    ensures |Body(v, stamp, compress)| <= |SerializationByNumber(v, stamp, compress)|
    ensures ParseTail(AsciiDecode(SerializationByNumber(v, stamp, compress)[|Body(v, stamp, compress)|..]))
         == Some((XrefsByNumber(v, stamp, compress), Trailer(v, stamp, compress)))
  {
    var body := Body(v, stamp, compress);
    var tail := Tail(XrefsByNumber(v, stamp, compress), Trailer(v, stamp, compress));
    assert SerializationByNumber(v, stamp, compress)[|body|..] == tail;
    TailReads(XrefsByNumber(v, stamp, compress), Trailer(v, stamp, compress));
  }

  /** The file listed by number is the body, the reordered table and the same
      trailer, in that order. */
  lemma SerializationByNumberIs(v: DocView, stamp: string, compress: seq<Byte> -> seq<Byte>,
                                body: seq<Byte>, offsets: seq<nat>)
    requires IdsIssued(EmissionIds(v), |EmissionIds(v)|)
    requires body == Body(v, stamp, compress) && offsets == XrefsByNumber(v, stamp, compress)
    ensures SerializationByNumber(v, stamp, compress)
         == body + Utf8(XrefTable(offsets))
            + Utf8(TrailerStr(TrailerInfo(|offsets| + 1, v.metadata.objectId, v.catalogId, |body|)))
  {
    var t := TrailerInfo(|offsets| + 1, v.metadata.objectId, v.catalogId, |body|);
    assert Trailer(v, stamp, compress) == t;
    TailAfter(body, offsets, t);
  }

  // ---------------------------------------------------------------------
  // A font registered before a page
  // ---------------------------------------------------------------------

  /** A new document in which `get_font("Helvetica")` runs before the first
      page is created: the font takes number 5, the page 6 and its content 7,
      but `__bytes__` writes pages before fonts. */
  function FontBeforePage(): DocView
  {
    DocView(NewMetadata(1), 2, 3, 4, A4.Dimensions(),
            [PageView(6, None, 7, [], Flate)], [NewFont(5, "Helvetica")])
  }

  /** The numbers of that document are issued by its counter, yet the table
      `__bytes__` writes puts the page where a reader looks for object 5; the
      table listed by number does not. */
  lemma FontBeforePageMisaddressed(stamp: string, compress: seq<Byte> -> seq<Byte>)
    ensures EmissionIds(FontBeforePage()) == [1, 2, 3, 4, 6, 7, 5]
    ensures IdsIssued(EmissionIds(FontBeforePage()), |EmissionIds(FontBeforePage())|)
    ensures |Xrefs(FontBeforePage(), stamp, compress)| == 7
    ensures Xrefs(FontBeforePage(), stamp, compress)[4] < |Serialization(FontBeforePage(), stamp, compress)|
    ensures !StartsWithHeader(Serialization(FontBeforePage(), stamp, compress)[Xrefs(FontBeforePage(), stamp, compress)[4]..], 5)
    ensures StartsWithHeader(Serialization(FontBeforePage(), stamp, compress)[Xrefs(FontBeforePage(), stamp, compress)[4]..], 6)
    ensures |XrefsByNumber(FontBeforePage(), stamp, compress)| == 7
    ensures XrefsByNumber(FontBeforePage(), stamp, compress)[4] < |SerializationByNumber(FontBeforePage(), stamp, compress)|
    ensures StartsWithHeader(SerializationByNumber(FontBeforePage(), stamp, compress)[XrefsByNumber(FontBeforePage(), stamp, compress)[4]..], 5)
  {
    FontBeforePageIds();
    var v := FontBeforePage();
    hide *;
    FifthEntryMisaddressed(v, stamp, compress);
    FifthEntryByNumber(v, stamp, compress);
  }

  lemma FontBeforePageIds()
    ensures EmissionIds(FontBeforePage()) == [1, 2, 3, 4, 6, 7, 5]
    ensures IdsIssued(EmissionIds(FontBeforePage()), |EmissionIds(FontBeforePage())|)
  {
    var v := FontBeforePage();
    var ids := EmissionIds(v);
    assert PageIdPairs(v.pages) == [6, 7];
    assert FontObjectIds(v.fonts) == [5];
    assert ids == [1, 2, 3, 4, 6, 7, 5];
    forall m | 1 <= m <= 7 ensures m in ids {
      assert ids[[0, 1, 2, 3, 6, 4, 5][m - 1]] == m;
    }
  }

  /** Whenever the page's two numbers come before the font's, entry 4 of the
      table `__bytes__` writes addresses object 6, not object 5. */
  lemma FifthEntryMisaddressed(v: DocView, stamp: string, compress: seq<Byte> -> seq<Byte>)
    requires EmissionIds(v) == [1, 2, 3, 4, 6, 7, 5]
    ensures |Xrefs(v, stamp, compress)| == 7
    ensures Xrefs(v, stamp, compress)[4] < |Serialization(v, stamp, compress)|
    ensures !StartsWithHeader(Serialization(v, stamp, compress)[Xrefs(v, stamp, compress)[4]..], 5)
    ensures StartsWithHeader(Serialization(v, stamp, compress)[Xrefs(v, stamp, compress)[4]..], 6)
  {
    hide *;
    XrefEntriesAddressObjects(v, stamp, compress);
    XrefEntryNamesItsObject(v, stamp, compress, 4);
    assert EmissionIds(v)[4] == 6;
  }

  /** Listed by number, entry 4 addresses object 5 in the same document. */
  lemma FifthEntryByNumber(v: DocView, stamp: string, compress: seq<Byte> -> seq<Byte>)
    requires |EmissionIds(v)| == 7 && IdsIssued(EmissionIds(v), |EmissionIds(v)|)
    ensures |XrefsByNumber(v, stamp, compress)| == 7
    ensures XrefsByNumber(v, stamp, compress)[4] < |SerializationByNumber(v, stamp, compress)|
    ensures StartsWithHeader(SerializationByNumber(v, stamp, compress)[XrefsByNumber(v, stamp, compress)[4]..], 5)
  {
    hide *;
    XrefsByNumberAddressObjects(v, stamp, compress);
  }
}
