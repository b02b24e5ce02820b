/** The objects of pdf_maker/pdf.py that change in place: the document with its
    object counter, page list, font registry and output buffer; pages; and their
    content streams. Rendering is delegated to the pure functions of `Objects`
    and `Assembly`, against which `Document.Serialize` is proved. */
module Pdf {
  import opened Strings
  import opened Unicode
  import opened Syntax
  import opened Fonts
  import opened Objects
  import opened Assembly

  /** The exception a call raises instead of returning. */
  datatype Outcome = Done | Raised(error: string)

  /** The numbers of each page and of its content, in page order. */
  function PageIds(ps: seq<Page>): (ids: seq<nat>)
    ensures |ids| == 2 * |ps|
  {
    if ps == [] then []
    else PageIds(ps[..|ps| - 1]) + [ps[|ps| - 1].objectId, ps[|ps| - 1].content.objectId]
  }

  /** Page `i` holds places `2i` and `2i + 1`: its own number, then its content's. */
  lemma {:induction false} PageIdsAt(ps: seq<Page>, i: nat)
    requires i < |ps|
    ensures PageIds(ps)[2 * i] == ps[i].objectId && PageIds(ps)[2 * i + 1] == ps[i].content.objectId
  {
    var front := ps[..|ps| - 1];
    if i < |front| {
      assert front[i] == ps[i];
      PageIdsAt(front, i);
    }
  }

  lemma PageIdsAppend(ps: seq<Page>, p: Page)
    ensures PageIds(ps + [p]) == PageIds(ps) + [p.objectId, p.content.objectId]
  {
    assert (ps + [p])[..|ps|] == ps;
  }

  /** A new page's two numbers go after the pages' numbers, before the fonts'. */
  lemma PageIdsInsert(fixed: seq<nat>, ps: seq<Page>, p: Page, fontIds: seq<nat>)
    ensures fixed + PageIds(ps + [p]) + fontIds == fixed + PageIds(ps) + [p.objectId, p.content.objectId] + fontIds
  {
    PageIdsAppend(ps, p);
    hide PageIds;
    assert fixed + (PageIds(ps) + [p.objectId, p.content.objectId]) == fixed + PageIds(ps) + [p.objectId, p.content.objectId];
  }

  /** The number of each page, in page order. */
  function PageNumbers(ps: seq<Page>): (ids: seq<nat>)
    ensures |ids| == |ps|
    ensures forall i :: 0 <= i < |ps| ==> ids[i] == ps[i].objectId
  {
    if ps == [] then [] else PageNumbers(ps[..|ps| - 1]) + [ps[|ps| - 1].objectId]
  }

  /** The content stream of each page, in page order. */
  function Contents(ps: seq<Page>): (cs: seq<Content>)
    ensures |cs| == |ps|
    ensures forall i :: 0 <= i < |ps| ==> cs[i] == ps[i].content
  {
    if ps == [] then [] else Contents(ps[..|ps| - 1]) + [ps[|ps| - 1].content]
  }

  /** What the serializer reads of each page, in page order. */
  function PageViews(ps: seq<Page>): (vs: seq<PageView>)
    reads ps, Contents(ps)
    ensures |vs| == |ps|
    ensures forall i :: 0 <= i < |ps| ==> vs[i] == ps[i].View()
  {
    if ps == [] then []
    else PageViews(ps[..|ps| - 1]) + [ps[|ps| - 1].View()]
  }

  /** The numbers of the pages are the numbers the serializer sees. */
  lemma PageIdsViews(ps: seq<Page>)
    ensures PageIds(ps) == PageIdPairs(PageViews(ps))
  {
    var a := PageIds(ps);
    var b := PageIdPairs(PageViews(ps));
    forall k | 0 <= k < |a| ensures a[k] == b[k] {
      var i := k / 2;
      PageIdsAt(ps, i);
    }
  }

  /** The loop of `_write_xref_table()`: one row per entry, each ending in a
      newline, in the order the entries were recorded. */
  method XrefRowsText(xs: seq<nat>) returns (rows: string)
    ensures rows == XrefRows(xs)
  {
    hide Pad10;
    rows := "";
    var i := 0;
    while i < |xs|
      invariant 0 <= i <= |xs|
      invariant rows == XrefRows(xs[..i])
    {
      assert xs[..i + 1][..i] == xs[..i];
      assert XrefRows(xs[..i + 1]) == XrefRows(xs[..i]) + XrefRow(xs[i]) + "\n";
      rows := rows + Pad10(xs[i]) + " 00000 n \n";
      i := i + 1;
    }
    assert xs[..i] == xs;
  }

  /** `Content`: the instructions of one page and how they are encoded. */
  class Content {
    const objectId: nat
    var instructions: seq<Text>
    var encoding: ContentEncoding

    /** `Content(object_id)`: no instructions yet, compressed. */
    constructor (objectId: nat)
      ensures this.objectId == objectId && instructions == [] && encoding == Flate
    {
      this.objectId := objectId;
      instructions := [];
      encoding := Flate;
    }

    /** `bytes(content)`. */
    function Bytes(compress: seq<Byte> -> seq<Byte>): (r: seq<Byte>)
      reads this
      ensures StartsWithHeader(r, objectId)
    {
      ContentFrame(objectId, instructions, encoding, compress);
      ContentBytes(objectId, instructions, encoding, compress)
    }
  }

  /** `Page`: a page of the document, with its own content stream. Its parent
      is always the document. */
  class Page {
    const document: Document
    const objectId: nat
    const content: Content
    var pageSize: Option<Size>

    /** `Page(document)`: joins the document's page list, takes the next object
        number and gives the one after it to its new content stream. */
    constructor (document: Document)
      requires document.Valid()
      modifies document`counter, document`pages
      ensures document.Valid()
      ensures this.document == document && pageSize == None
      ensures objectId == old(document.counter) + 1 && content.objectId == objectId + 1
      ensures fresh(content) && content.instructions == [] && content.encoding == Flate
      ensures document.pages == old(document.pages) + [this]
      ensures document.counter == old(document.counter) + 2
      ensures unchanged(document`fonts, document`fontOrder, document`metadata, document`pageSize)
    {
      this.document := document;
      var id := document.GetNextObjectId();
      objectId := id;
      var contentId := document.GetNextObjectId();
      content := new Content(contentId);
      pageSize := None;
      new;
      hide IdsIssued;
      hide PageIds;
      hide FontObjectIds;
      ghost var fontIds := FontObjectIds(document.FontValues());
      ghost var fixed := [document.metadata.objectId, document.catalogId, document.outlinesId, document.pageRootId];
      ghost var before := document.pages;
      document.pages := document.pages + [this];
      PageIdsInsert(fixed, before, this, fontIds);
      assert document.Ids() == fixed + PageIds(before + [this]) + fontIds;
      IdsIssuedInsert(fixed + PageIds(before), fontIds, id - 1);
    }

    /** `get_page_size()`: the page's own size, else the document's. */
    function GetPageSize(): (s: Size)
      reads this, document`pageSize
      ensures pageSize.Some? ==> s == pageSize.value
      ensures pageSize.None? ==> s == document.pageSize
    {
      EffectiveSize(pageSize, document.GetPageSize())
    }

    /** What the serializer reads of this page and its content. */
    function View(): PageView
      reads this, content
    {
      PageView(objectId, pageSize, content.objectId, content.instructions, content.encoding)
    }

    /** `bytes(page)`. */
    function Bytes(): (r: seq<Byte>)
      reads this, content, document`pageSize
      ensures r == PageBlob(View(), document.pageRootId, document.pageSize)
      ensures StartsWithHeader(r, objectId)
    {
      PageOpens(View(), document.pageRootId, document.pageSize);
      Utf8(PageStr(objectId, document.pageRootId, GetPageSize(), content.objectId, content.instructions))
    }

    /** A reader of `bytes(page)` finds `get_page_size()` as the media box:
        the page's own size when it has one, else the document's. */
    lemma MediaBoxIsPageSize()
      ensures Bytes() == Utf8(PageStr(objectId, document.pageRootId, GetPageSize(), content.objectId, content.instructions))
      ensures ParsePage(PageStr(objectId, document.pageRootId, GetPageSize(), content.objectId, content.instructions))
           == Some(PageInfo(objectId, document.pageRootId, GetPageSize(), content.objectId, UniqueFontIds(content.instructions)))
      ensures pageSize.None? ==> GetPageSize() == document.GetPageSize()
    {
      PageRoundTrip(objectId, document.pageRootId, GetPageSize(), content.objectId, content.instructions);
    }

    /** `add_text(text, font_name, font_size, position)` as written: it registers
        the font, then raises `NameError` on the undefined name `encoding` before
        the instruction reaches the content stream. */
    method AddText(text: string, fontName: string, fontSize: nat, x: nat, y: nat) returns (r: Outcome)
      requires document.Valid()
      modifies document`counter, document`fonts, document`fontOrder
      ensures document.Valid()
      ensures r == Raised("NameError")
      ensures fontName in document.fonts
      ensures document.fonts == old(document.fonts)[fontName := document.fonts[fontName]]
      ensures fontName in old(document.fonts) ==>
        document.fonts == old(document.fonts) && document.fontOrder == old(document.fontOrder)
        && document.counter == old(document.counter)
      ensures fontName !in old(document.fonts) ==>
        document.fonts[fontName] == NewFont(old(document.counter) + 1, fontName)
        && document.fontOrder == old(document.fontOrder) + [fontName]
        && document.counter == old(document.counter) + 1
      ensures unchanged(content)
    {
      var font := document.GetFont(fontName);
      r := Raised("NameError");
    }

    /** `add_text` as evidently intended: the font is registered and a `Text`
        instruction in it, at the given position, is appended to the content. */
    method AddTextIntended(text: string, fontName: string, fontSize: nat, x: nat, y: nat)
      requires document.Valid()
      modifies document`counter, document`fonts, document`fontOrder, content`instructions
      ensures document.Valid()
      ensures fontName in document.fonts
      ensures document.fonts == old(document.fonts)[fontName := document.fonts[fontName]]
      ensures fontName in old(document.fonts) ==>
        document.fonts == old(document.fonts) && document.fontOrder == old(document.fontOrder)
        && document.counter == old(document.counter)
      ensures fontName !in old(document.fonts) ==>
        document.fonts[fontName] == NewFont(old(document.counter) + 1, fontName)
        && document.fontOrder == old(document.fontOrder) + [fontName]
        && document.counter == old(document.counter) + 1
      ensures content.instructions
           == old(content.instructions) + [Text(text, document.fonts[fontName], fontSize, x, y)]
    {
      var font := document.GetFont(fontName);
      var instruction := NewText(text, font, fontSize);
      instruction := instruction.(x := x, y := y);
      content.instructions := content.instructions + [instruction];
    }
  }

  /** `Document`: the top-level PDF object. */
  class Document {
    var counter: nat
    var metadata: Metadata
    const catalogId: nat
    const outlinesId: nat
    const pageRootId: nat
    var pageSize: Size
    var pages: seq<Page>
    /** The `fonts` dictionary: its entries, and its keys in insertion order. */
    var fonts: map<string, Font>
    var fontOrder: seq<string>
    var bytesOutput: seq<Byte>
    var xrefs: seq<nat>

    /** The dictionary and its insertion order agree, and each font is keyed
        by its base name and uses `/MacRomanEncoding`. */
    predicate FontsAligned()
      reads this`fonts, this`fontOrder
    {
      && (forall i :: 0 <= i < |fontOrder| ==> fontOrder[i] in fonts && fonts[fontOrder[i]] == NewFont(fonts[fontOrder[i]].objectId, fontOrder[i]))
      && (forall n :: n in fonts ==> n in fontOrder)
      && (forall i, j :: 0 <= i < j < |fontOrder| ==> fontOrder[i] != fontOrder[j])
    }

    /** The pages, in order, are `vs`, and each belongs to this document. */
    predicate PagesAre(vs: seq<PageView>)
      reads this`pages, pages, Contents(pages)
    {
      |vs| == |pages| && forall k :: 0 <= k < |pages| ==> pages[k].View() == vs[k] && pages[k].document == this
    }

    /** The fonts registered, in insertion order, are `fs`. */
    predicate FontsAre(fs: seq<Font>)
      reads this`fonts, this`fontOrder
    {
      |fs| == |fontOrder| && forall k :: 0 <= k < |fontOrder| ==> fontOrder[k] in fonts && fonts[fontOrder[k]] == fs[k]
    }

    /** `fonts.values()`, in insertion order. */
    function FontValues(): (fs: seq<Font>)
      reads this`fonts, this`fontOrder
      requires FontsAligned()
      ensures |fs| == |fontOrder|
      ensures forall i :: 0 <= i < |fontOrder| ==> fs[i] == fonts[fontOrder[i]]
    {
      var order, entries := fontOrder, fonts;
      seq(|order|, i requires 0 <= i < |order| && order[i] in entries => entries[order[i]])
    }

    /** Every object number the document has handed out, in the order the
        objects are written. */
    function Ids(): seq<nat>
      reads this`metadata, this`pages, this`fonts, this`fontOrder
      requires FontsAligned()
    {
      [metadata.objectId, catalogId, outlinesId, pageRootId] + PageIds(pages) + FontObjectIds(FontValues())
    }

    /** The numbers handed out are exactly `1 .. counter`, each to one object:
        the four document objects hold 1 to 4, each page and its content hold
        two numbers, each font one. */
    predicate Valid()
      reads this`counter, this`metadata, this`pages, this`fonts, this`fontOrder
    {
      && metadata.objectId == 1 && catalogId == 2 && outlinesId == 3 && pageRootId == 4
      && FontsAligned()
      && counter == 4 + 2 * |pages| + |fontOrder|
      && IdsIssued(Ids(), counter)
      && forall i :: 0 <= i < |pages| ==> pages[i].document == this
    }

    /** `Document()`: numbers 1 to 4 go to the info dictionary, the catalog,
        the outlines and the page-tree root; the default page size is A4. */
    constructor ()
      ensures Valid()
      ensures metadata == NewMetadata(1) && catalogId == 2 && outlinesId == 3 && pageRootId == 4
      ensures counter == 4 && pages == [] && fonts == map[] && fontOrder == []
      ensures pageSize == A4.Dimensions()
    {
      pageSize := A4.Dimensions();
      var next := 0;
      next := next + 1;
      metadata := NewMetadata(next);
      next := next + 1;
      catalogId := next;
      next := next + 1;
      outlinesId := next;
      next := next + 1;
      pageRootId := next;
      counter := next;
      pages := [];
      fonts := map[];
      fontOrder := [];
      bytesOutput := [];
      xrefs := [];
      new;
      assert Ids() == [1, 2, 3, 4];
    }

    /** `get_next_object_id()`. */
    method GetNextObjectId() returns (id: nat)
      modifies this`counter
      ensures id == old(counter) + 1 && counter == id
    {
      counter := counter + 1;
      id := counter;
    }

    /** `get_page_size()`. */
    function GetPageSize(): Size
      reads this`pageSize
    {
      pageSize
    }

    /** `get_font(font_name)`: the registered font of that name, or a new one
        under the next object number, registered last. */
    method GetFont(name: string) returns (f: Font)
      requires Valid()
      modifies this`counter, this`fonts, this`fontOrder
      ensures Valid()
      ensures name in fonts && f == fonts[name] && f.baseFont == name
      ensures name in old(fonts) ==>
        f == old(fonts)[name] && counter == old(counter) && fonts == old(fonts) && fontOrder == old(fontOrder)
      ensures name !in old(fonts) ==>
        f == NewFont(old(counter) + 1, name) && counter == old(counter) + 1
        && fonts == old(fonts)[name := f] && fontOrder == old(fontOrder) + [name]
    {
      hide IdsIssued, PageIds, FontObjectIds;
      var found := if name in fonts then Some(fonts[name]) else None;
      if found.Some? {
        f := found.value;
        assert name in fontOrder;
      } else {
        ghost var before := FontValues();
        var id := GetNextObjectId();
        f := NewFont(id, name);
        fonts := fonts[name := f];
        fontOrder := fontOrder + [name];
        assert FontsAligned();
        assert FontValues() == before + [f];
        assert FontObjectIds(FontValues()) == FontObjectIds(before) + [id];
        IdsIssuedAppend(old(Ids()), old(counter));
        assert Ids() == old(Ids()) + [id];
      }
    }
  
    /** `fonts.values()` of a valid document: font `i` is the one registered
        `i`-th, under its own base name, with `/MacRomanEncoding`, and no two
        fonts share an object number or take one of the document's first four. */
    lemma FontValuesRegistered()
      requires Valid()
      ensures |FontValues()| == |fontOrder|
      ensures forall i :: 0 <= i < |fontOrder| ==>
        FontValues()[i] == NewFont(FontValues()[i].objectId, fontOrder[i]) && 4 < FontValues()[i].objectId <= counter
      ensures Distinct(FontObjectIds(FontValues()))
    {
      var fixed := [metadata.objectId, catalogId, outlinesId, pageRootId];
      var ids := Ids();
      var fs := FontValues();
      var fi := FontObjectIds(fs);
      var off := 4 + |PageIds(pages)|;
      assert ids == fixed + PageIds(pages) + fi;
      forall i | 0 <= i < |fontOrder|
        ensures fs[i] == NewFont(fs[i].objectId, fontOrder[i]) && 4 < fs[i].objectId <= counter
      {
        assert ids[off + i] == fs[i].objectId;
        assert ids[0] == 1 && ids[1] == 2 && ids[2] == 3 && ids[3] == 4;
        assert ids[0] != ids[off + i] && ids[1] != ids[off + i] && ids[2] != ids[off + i] && ids[3] != ids[off + i];
      }
      forall i, j | 0 <= i < j < |fi| ensures fi[i] != fi[j] {
        assert ids[off + i] == fi[i] && ids[off + j] == fi[j];
      }
    }

    /** The numbers handed out are the numbers of the objects `__bytes__`
        writes, in writing order. */
    lemma IdsAreEmissionIds()
      requires FontsAligned()
      ensures Ids() == EmissionIds(View())
    {
      PageIdsViews(pages);
    }

    /** Every valid document numbers what it writes `1 .. n`, once each. */
    lemma ValidIssuesEmissionIds()
      requires Valid()
      ensures IdsIssued(EmissionIds(View()), |EmissionIds(View())|)
    {
      IdsAreEmissionIds();
    }

    /** What `__bytes__` reads of the document. */
    function View(): DocView
      reads this`metadata, this`pageSize, this`pages, this`fonts, this`fontOrder
      reads pages, Contents(pages)
      requires FontsAligned()
    {
      DocView(metadata, catalogId, outlinesId, pageRootId, pageSize, PageViews(pages), FontValues())
    }

    /** `get_catalog()`. */
    function GetCatalog(): string
    {
      CatalogStr(catalogId, outlinesId, pageRootId)
    }

    /** `get_outlines()`. */
    function GetOutlines(): string
    {
      OutlinesStr(outlinesId)
    }

    /** `get_page_root()`: the pages' numbers in page order. */
    function GetPageRoot(): string
      reads this`pages
    {
      PageRootStr(pageRootId, PageNumbers(pages))
    }

    /** `_write_object(obj)`, given `bytes(obj)`: the buffer length before the
        object is its cross-reference entry. */
    method WriteObject(b: seq<Byte>)
      modifies this`bytesOutput, this`xrefs
      ensures xrefs == old(xrefs) + [|old(bytesOutput)|]
      ensures bytesOutput == old(bytesOutput) + b + [10]
    {
      xrefs := xrefs + [|bytesOutput|];
      bytesOutput := bytesOutput + b;
      bytesOutput := bytesOutput + [10];
    }

    /** `_write_xref_table()`: the table of every recorded entry. */
    method WriteXrefTable()
      modifies this`bytesOutput
      ensures bytesOutput == old(bytesOutput) + Utf8(XrefTable(xrefs))
    {
      var xs := xrefs;
      var result := "xref\n0 " + NatStr(|xs| + 1) + "\n" + "0000000000 65535 f \n";
      ghost var opening := result;
      var rows := XrefRowsText(xs);
      result := result + rows;
      XrefTableFrom(xs, opening);
      bytesOutput := bytesOutput + Utf8(result);
    }

    /** `_write_trailer(xref_position)`. */
    method WriteTrailer(xrefPosition: nat)
      modifies this`bytesOutput
      ensures bytesOutput
           == old(bytesOutput) + Utf8(TrailerStr(TrailerInfo(|xrefs| + 1, metadata.objectId, catalogId, xrefPosition)))
    {
      bytesOutput := bytesOutput
        + Utf8(TrailerStr(TrailerInfo(|xrefs| + 1, metadata.objectId, catalogId, xrefPosition)));
    }

    /** One turn of the first loop of `__bytes__`: page `i`, then its content. */
    method WritePage(i: nat, compress: seq<Byte> -> seq<Byte>, ghost v: DocView, ghost written: seq<seq<Byte>>)
      requires i < |pages| && PagesAre(v.pages) && v.pageRootId == pageRootId && v.pageSize == pageSize
      requires bytesOutput == Emit(FileStart, written) && xrefs == Offsets(FileStart, written)
      modifies this`bytesOutput, this`xrefs
      ensures bytesOutput == Emit(FileStart, written + [PageBlob(v.pages[i], v.pageRootId, v.pageSize), ContentBlob(v.pages[i], compress)])
      ensures xrefs == Offsets(FileStart, written + [PageBlob(v.pages[i], v.pageRootId, v.pageSize), ContentBlob(v.pages[i], compress)])
    {
      hide PageStr;
      hide ContentBytes;
      hide Utf8;
      var page := pages[i];
      assert page.View() == v.pages[i] && page.document == this;
      var pageBytes := page.Bytes();
      WriteObject(pageBytes);
      EmitAppend(FileStart, written, pageBytes);
      var contentBytes := page.content.Bytes(compress);
      WriteObject(contentBytes);
      EmitAppend(FileStart, written + [pageBytes], contentBytes);
      assert written + [pageBytes] + [contentBytes] == written + [pageBytes, contentBytes];
    }

    /** The first loop of `__bytes__`: each page, then its content, in page order. */
    method WritePages(compress: seq<Byte> -> seq<Byte>, ghost v: DocView, ghost written: seq<seq<Byte>>)
      requires PagesAre(v.pages) && v.pageRootId == pageRootId && v.pageSize == pageSize
      requires bytesOutput == Emit(FileStart, written) && xrefs == Offsets(FileStart, written)
      modifies this`bytesOutput, this`xrefs
      ensures bytesOutput == Emit(FileStart, written + PageBlobs(v.pages, v.pageRootId, v.pageSize, compress))
      ensures xrefs == Offsets(FileStart, written + PageBlobs(v.pages, v.pageRootId, v.pageSize, compress))
    {
      hide PageBlob;
      hide ContentBlob;
      hide PageBlobs;
      hide Emit;
      hide Offsets;
      ghost var pb := PageBlobs(v.pages, v.pageRootId, v.pageSize, compress);
      ghost var sofar := written;
      var i := 0;
      while i < |pages|
        invariant 0 <= i <= |pages|
        invariant bytesOutput == Emit(FileStart, sofar) && xrefs == Offsets(FileStart, sofar)
        invariant sofar == written + pb[..2 * i]
      {
        WritePage(i, compress, v, sofar);
        assert pb[2 * i] == PageBlob(v.pages[i], v.pageRootId, v.pageSize) && pb[2 * i + 1] == ContentBlob(v.pages[i], compress);
        assert pb[..2 * i + 2] == pb[..2 * i] + [pb[2 * i], pb[2 * i + 1]];
        assert written + (pb[..2 * i] + [pb[2 * i], pb[2 * i + 1]]) == written + pb[..2 * i] + [pb[2 * i], pb[2 * i + 1]];
        sofar := sofar + [pb[2 * i], pb[2 * i + 1]];
        i := i + 1;
      }
      assert pb[..2 * i] == pb;
    }

    /** The second loop of `__bytes__`: each font, in the order it was registered. */
    method WriteFonts(ghost v: DocView, ghost written: seq<seq<Byte>>)
      requires FontsAre(v.fonts)
      requires bytesOutput == Emit(FileStart, written) && xrefs == Offsets(FileStart, written)
      modifies this`bytesOutput, this`xrefs
      ensures bytesOutput == Emit(FileStart, written + FontBlobs(v.fonts))
      ensures xrefs == Offsets(FileStart, written + FontBlobs(v.fonts))
    {
      hide Emit;
      hide Offsets;
      hide FontBlobs;
      ghost var fb := FontBlobs(v.fonts);
      ghost var sofar := written;
      var j := 0;
      while j < |fontOrder|
        invariant 0 <= j <= |fontOrder|
        invariant bytesOutput == Emit(FileStart, sofar) && xrefs == Offsets(FileStart, sofar)
        invariant sofar == written + fb[..j]
      {
        WriteFont(j, v, sofar);
        assert fb[..j + 1] == fb[..j] + [fb[j]];
        assert written + fb[..j] + [fb[j]] == written + (fb[..j] + [fb[j]]);
        sofar := sofar + [fb[j]];
        j := j + 1;
      }
      assert fb[..j] == fb;
    }

    /** One turn of the fonts loop: the font registered in place `j`. */
    method WriteFont(j: nat, ghost v: DocView, ghost written: seq<seq<Byte>>)
      requires j < |fontOrder| && FontsAre(v.fonts)
      requires bytesOutput == Emit(FileStart, written) && xrefs == Offsets(FileStart, written)
      modifies this`bytesOutput, this`xrefs
      ensures bytesOutput == Emit(FileStart, written + [FontBlobs(v.fonts)[j]])
      ensures xrefs == Offsets(FileStart, written + [FontBlobs(v.fonts)[j]])
    {
      hide Fonts.Render;
      hide Utf8;
      hide Emit;
      hide Offsets;
      var fontBytes := Fonts.Bytes(fonts[fontOrder[j]]);
      WriteObject(fontBytes);
      EmitAppend(FileStart, written, fontBytes);
    }

    /** The start of `__bytes__`: the file header, then the info dictionary, the
        catalog, the outlines and the page-tree root, each recorded in the table. */
    method WriteFixed(stamp: string, ghost v: DocView)
      requires v.metadata == metadata && v.catalogId == catalogId && v.outlinesId == outlinesId
      requires v.pageRootId == pageRootId && PageNumbers(pages) == PageObjectIds(v.pages)
      modifies this`bytesOutput, this`xrefs
      ensures bytesOutput == Emit(FileStart, FixedBlobs(v, stamp))
      ensures xrefs == Offsets(FileStart, FixedBlobs(v, stamp))
    {
      hide Utf8;
      hide MetadataBytes;
      hide CatalogStr;
      hide OutlinesStr;
      hide PageRootStr;
      hide Emit;
      hide Offsets;
      xrefs := [];
      bytesOutput := FileStart;
      var metadataBytes := MetadataBytes(metadata, stamp);
      WriteObject(metadataBytes);
      var catalogBytes := Utf8(GetCatalog());
      WriteObject(catalogBytes);
      var outlinesBytes := Utf8(GetOutlines());
      WriteObject(outlinesBytes);
      var rootBytes := Utf8(GetPageRoot());
      WriteObject(rootBytes);
      ghost var fixed := [metadataBytes, catalogBytes, outlinesBytes, rootBytes];
      assert fixed == FixedBlobs(v, stamp);
      EmitFour(FileStart, metadataBytes, catalogBytes, outlinesBytes, rootBytes);
      ghost var a, b, c, d := |FileStart|, |FileStart + metadataBytes + [10]|,
        |FileStart + metadataBytes + [10] + catalogBytes + [10]|,
        |FileStart + metadataBytes + [10] + catalogBytes + [10] + outlinesBytes + [10]|;
      assert [] + [a] + [b] + [c] + [d] == [a, b, c, d];
    }

    /** What the view says of the document, field by field. */
    lemma ViewFields(v: DocView)
      requires FontsAligned() && v == View()
      requires forall k :: 0 <= k < |pages| ==> pages[k].document == this
      ensures v.metadata == metadata && v.catalogId == catalogId && v.outlinesId == outlinesId
      ensures v.pageRootId == pageRootId && v.pageSize == pageSize
      ensures PagesAre(v.pages) && PageNumbers(pages) == PageObjectIds(v.pages)
      ensures FontsAre(v.fonts)
    {
    }

    /** The part of `bytes(document)` before the cross-reference table: the file
        header, then every object, each recorded in the table. */
    method WriteBody(stamp: string, compress: seq<Byte> -> seq<Byte>, ghost v: DocView)
      requires v.metadata == metadata && v.catalogId == catalogId && v.outlinesId == outlinesId
      requires v.pageRootId == pageRootId && v.pageSize == pageSize
      requires PagesAre(v.pages) && PageNumbers(pages) == PageObjectIds(v.pages)
      requires FontsAre(v.fonts)
      modifies this`bytesOutput, this`xrefs
      ensures bytesOutput == Body(v, stamp, compress) && xrefs == Xrefs(v, stamp, compress)
    {
      hide FixedBlobs;
      hide PageBlobs;
      hide FontBlobs;
      hide Emit;
      hide Offsets;
      hide PageBlob;
      hide ContentBlob;
      hide Fonts.Bytes;
      ghost var fixed := FixedBlobs(v, stamp);
      WriteFixed(stamp, v);
      WritePages(compress, v, fixed);
      ghost var paged := fixed + PageBlobs(v.pages, v.pageRootId, v.pageSize, compress);
      WriteFonts(v, paged);
      assert paged + FontBlobs(v.fonts) == Blobs(v, stamp, compress);
    }

    /** `bytes(document)`: writes the header, every object, the table and the
        trailer into the buffer and returns it; the result is the serialization
        of the document as it stood when called (only the buffer and the table
        change). */
    method Serialize(stamp: string, compress: seq<Byte> -> seq<Byte>) returns (out: seq<Byte>)
      requires FontsAligned() && forall i :: 0 <= i < |pages| ==> pages[i].document == this
      modifies this`bytesOutput, this`xrefs
      ensures out == bytesOutput == Serialization(old(View()), stamp, compress)
      ensures xrefs == Xrefs(old(View()), stamp, compress)
    {
      hide Serialization;
      hide Body;
      hide Xrefs;
      hide Utf8;
      hide XrefTable;
      hide TrailerStr;
      hide PagesAre;
      hide FontsAre;
      hide PageNumbers;
      hide PageObjectIds;
      ghost var v := View();
      ViewFields(v);
      WriteBody(stamp, compress, v);
      var xrefPosition := |bytesOutput|;
      ghost var body := bytesOutput;
      WriteXrefTable();
      ghost var t := TrailerInfo(|xrefs| + 1, metadata.objectId, catalogId, xrefPosition);
      assert t == TrailerInfo(|xrefs| + 1, v.metadata.objectId, v.catalogId, |body|);
      ghost var pre := bytesOutput;
      assert P: pre == body + Utf8(XrefTable(xrefs));
      WriteTrailer(xrefPosition);
      assert A: |xrefs| + 1 == t.size && metadata.objectId == t.infoId && catalogId == t.rootId;
      assert C: TrailerInfo(|xrefs| + 1, metadata.objectId, catalogId, xrefPosition) == t;
      assert B0: bytesOutput == pre + Utf8(TrailerStr(t));
      assert B1: bytesOutput == body + Utf8(XrefTable(xrefs)) + Utf8(TrailerStr(t));
      SerializationIs(v, stamp, compress, body, xrefs);
      out := bytesOutput;
    }

    /** Reorders the recorded table by object number. */
    method ListXrefsByNumber(stamp: string, compress: seq<Byte> -> seq<Byte>, ghost v: DocView)
      requires FontsAligned() && Ids() == EmissionIds(v) && IdsIssued(EmissionIds(v), |EmissionIds(v)|)
      requires xrefs == Xrefs(v, stamp, compress)
      modifies this`xrefs
      ensures xrefs == XrefsByNumber(v, stamp, compress)
    {
      BlobsCount(v, stamp, compress);
      xrefs := ByNumber(Ids(), xrefs);
    }

    /** `bytes(document)` with the table listed by object number, as a reader
        of the table expects: the body is written as before, then entry `k`
        of the table is the position of object `k + 1`. */
    method SerializeByNumber(stamp: string, compress: seq<Byte> -> seq<Byte>) returns (out: seq<Byte>)
      requires Valid()
      modifies this`bytesOutput, this`xrefs
      ensures IdsIssued(EmissionIds(old(View())), |EmissionIds(old(View()))|)
      ensures out == bytesOutput == SerializationByNumber(old(View()), stamp, compress)
      ensures xrefs == XrefsByNumber(old(View()), stamp, compress)
    {
      ValidIssuesEmissionIds();
      IdsAreEmissionIds();
      out := WriteByNumber(stamp, compress, View());
    }

    /** The steps of `SerializeByNumber`, for the view `v` of the document. */
    method WriteByNumber(stamp: string, compress: seq<Byte> -> seq<Byte>, ghost v: DocView) returns (out: seq<Byte>)
      requires FontsAligned() && forall i :: 0 <= i < |pages| ==> pages[i].document == this
      requires v == View() && Ids() == EmissionIds(v) && IdsIssued(EmissionIds(v), |EmissionIds(v)|)
      modifies this`bytesOutput, this`xrefs
      ensures out == bytesOutput == SerializationByNumber(v, stamp, compress)
      ensures xrefs == XrefsByNumber(v, stamp, compress)
    {
      hide SerializationByNumber;
      hide Body;
      hide Xrefs;
      hide XrefsByNumber;
      hide Utf8;
      hide XrefTable;
      hide TrailerStr;
      hide PagesAre;
      hide FontsAre;
      hide PageNumbers;
      hide PageObjectIds;
      hide IdsIssued;
      hide EmissionIds;
      hide Ids;
      ViewFields(v);
      WriteBody(stamp, compress, v);
      var xrefPosition := |bytesOutput|;
      ghost var body := bytesOutput;
      ListXrefsByNumber(stamp, compress, v);
      WriteXrefTable();
      ghost var t := TrailerInfo(|xrefs| + 1, metadata.objectId, catalogId, xrefPosition);
      assert t == TrailerInfo(|xrefs| + 1, v.metadata.objectId, v.catalogId, |body|);
      ghost var pre := bytesOutput;
      assert pre == body + Utf8(XrefTable(xrefs));
      WriteTrailer(xrefPosition);
      assert bytesOutput == body + Utf8(XrefTable(xrefs)) + Utf8(TrailerStr(t));
      SerializationByNumberIs(v, stamp, compress, body, xrefs);
      out := bytesOutput;
    }
  }
}
