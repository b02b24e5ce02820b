/** Whole documents built with the `Pdf` classes and serialized: the empty
    document of tests/pdf/test_pdfdocument.py, and a document whose font is
    registered before its page. */
module Scenarios {
  import opened Strings
  import opened Unicode
  import opened Syntax
  import opened Fonts
  import opened Objects
  import opened Assembly
  import opened Pdf

  /** `bytes(Document())` for a creation stamp of 14 digits: the four objects
      sit at 9, 125, 196 and 245, the table starts at 291, and the trailer
      counts five entries, with the info dictionary 1 and the catalog 2. */
  method EmptyDocumentBytes(stamp: string, compress: seq<Byte> -> seq<Byte>) returns (out: seq<Byte>, xrefs: seq<nat>)
    requires |stamp| == 14 && IsAscii(stamp)
    ensures xrefs == [9, 125, 196, 245]
    ensures 291 <= |out|
    ensures ParseTail(AsciiDecode(out[291..])) == Some(([9, 125, 196, 245], TrailerInfo(5, 1, 2, 291)))
    ensures forall k :: 0 <= k < 4 ==> xrefs[k] < |out| && StartsWithHeader(out[xrefs[k]..], k + 1)
    ensures stamp == TestStamp ==> out == EmptyDocumentExpected
  {
    var d := new Document();
    ghost var v := d.View();
    assert v == EmptyDocument();
    out := d.Serialize(stamp, compress);
    xrefs := d.xrefs;
    EmptyDocumentFile(stamp, compress);
    if stamp == TestStamp {
      EmptyDocumentBytesExpected(compress);
    }
  }

  /** `Document()`, then `get_font("Helvetica")`: the font takes number 5. */
  method FontFirst() returns (d: Document)
    ensures fresh(d) && d.Valid() && d.pages == [] && d.counter == 5
    ensures d.FontValues() == [NewFont(5, "Helvetica")]
    ensures d.metadata == NewMetadata(1) && d.pageSize == A4.Dimensions()
  {
    hide IdsIssued, PageIds, FontObjectIds;
    d := new Document();
    var f := d.GetFont("Helvetica");
  }

  /** Then `Page(document)`: the page takes number 6 and its content stream 7. */
  method FontThenPage() returns (d: Document)
    ensures fresh(d) && d.Valid() && d.View() == FontBeforePage()
  {
    hide IdsIssued, PageIds, FontObjectIds, Document.FontValues;
    d := FontFirst();
    var p := new Page(d);
    assert d.pages == [p];
    assert PageViews(d.pages) == [PageView(6, None, 7, [], Flate)];
  }

  /** `Document()`, then `get_font("Helvetica")`, then `Page(document)`, then
      `bytes(document)`: the fifth entry of the table, the one a reader takes
      for object 5, gives the position of the page, object 6. */
  method FontBeforePageBytes(stamp: string, compress: seq<Byte> -> seq<Byte>) returns (out: seq<Byte>, xrefs: seq<nat>)
    ensures |xrefs| == 7 && xrefs[4] < |out|
    ensures StartsWithHeader(out[xrefs[4]..], 6) && !StartsWithHeader(out[xrefs[4]..], 5)
  {
    var d := FontThenPage();
    ghost var v := d.View();
    out := d.Serialize(stamp, compress);
    xrefs := d.xrefs;
    FontBeforePageMisaddressed(stamp, compress);
  }

  /** The same document serialized with the table listed by number: every
      entry `k` gives the position of object `k + 1`. */
  method FontBeforePageBytesByNumber(stamp: string, compress: seq<Byte> -> seq<Byte>) returns (out: seq<Byte>, xrefs: seq<nat>)
    ensures |xrefs| == 7
    ensures forall k :: 0 <= k < 7 ==> xrefs[k] < |out| && StartsWithHeader(out[xrefs[k]..], k + 1)
  {
    var d := FontThenPage();
    ghost var v := d.View();
    out := d.SerializeByNumber(stamp, compress);
    xrefs := d.xrefs;
    FontBeforePageIds();
    XrefsByNumberAddressObjects(v, stamp, compress);
  }
}
