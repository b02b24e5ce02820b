/** The font indirect object: a Type 1 font referred to by the name `/F<id>`
    (pdf_maker/font.py). */
module Fonts {
  import opened Strings
  import opened Unicode
  import opened Syntax

  /** The one encoding every font is given. */
  const MacRoman := "MacRomanEncoding"

  datatype Font = Font(objectId: nat, baseFont: string, encoding: string)

  /** `Font(object_id, base_font)`: the encoding is fixed, the rest is kept as passed. */
  function NewFont(objectId: nat, baseFont: string): Font
  {
    Font(objectId, baseFont, MacRoman)
  }

  /** The name contents streams and page resources use for the font. */
  function ResourceName(id: nat): string
  {
    "/F" + NatStr(id)
  }

  /** `str(font)`, line by line; the last line `endobj` has no newline after it. */
  function FontLines(f: Font): seq<string>
  {
    [ HeaderLine(f.objectId),
      "<< /Type /Font",
      "  /Subtype /Type1",
      "  /Name " + ResourceName(f.objectId),
      "  /BaseFont /" + f.baseFont,
      "  /Encoding /" + f.encoding,
      ">>",
      "endobj" ]
  }

  function Render(f: Font): string
  {
    Join(FontLines(f), '\n')
  }

  /** `bytes(font)`: the UTF-8 encoding of `str(font)`. */
  function Bytes(f: Font): seq<Byte>
  {
    Utf8(Render(f))
  }

  /** A reader for the font dictionary; it refuses a `/Name` whose number is not
      the object's own. */
  function ParseFont(s: string): Option<Font>
  {
    var ls := Split(s, '\n');
    if |ls| != 8 then None else ParseFontLines(ls)
  }

  /** Reads the eight lines of a font dictionary, one after the other. */
  function ParseFontLines(ls: seq<string>): Option<Font>
    requires |ls| == 8
  {
    if ls[1] != "<< /Type /Font" || ls[2] != "  /Subtype /Type1" || ls[6] != ">>" || ls[7] != "endobj" then None
    else
      var id := ParseHeaderLine(ls[0]);
      var nameId := ParseNumberLine(ls[3], "  /Name /F", "");
      var base := StripPrefix(ls[4], "  /BaseFont /");
      var enc := StripPrefix(ls[5], "  /Encoding /");
      if id.None? || nameId.None? || base.None? || enc.None? || id.value != nameId.value then None
      else Some(Font(id.value, base.value, enc.value))
  }

  /** The rendered text splits back into the eight lines it was joined from. */
  lemma FontLinesSplit(f: Font)
    requires '\n' !in f.baseFont && '\n' !in f.encoding
    ensures Split(Render(f), '\n') == FontLines(f)
  {
    var ls := FontLines(f);
    NatStrHasNo(f.objectId, '\n');
    assert NoneContain(ls, '\n') by {
      forall i | 0 <= i < 8 ensures '\n' !in ls[i] {
        if i == 0 {} else if i == 1 {} else if i == 2 {} else if i == 3 {} else if i == 4 {} else if i == 5 {} else if i == 6 {}
      }
    }
    SplitJoin(ls, '\n');
  }

  /** Each line gives back the field it was rendered from. */
  lemma FontLinesRead(f: Font)
    ensures ParseFontLines(FontLines(f)) == Some(f)
  {
    var ls := FontLines(f);
    assert ls[0] == HeaderLine(f.objectId);
    assert ls[3] == "  /Name /F" + NatStr(f.objectId) + "";
    assert ls[4] == "  /BaseFont /" + f.baseFont;
    assert ls[5] == "  /Encoding /" + f.encoding;
    assert ParseHeaderLine(ls[0]) == Some(f.objectId) by { ParseHeaderLineOf(f.objectId); }
    assert ParseNumberLine(ls[3], "  /Name /F", "") == Some(f.objectId) by {
      ParseNumberLineOf("  /Name /F", f.objectId, "");
    }
    assert StripPrefix(ls[4], "  /BaseFont /") == Some(f.baseFont) by { StripPrefixOf("  /BaseFont /", f.baseFont); }
    assert StripPrefix(ls[5], "  /Encoding /") == Some(f.encoding) by { StripPrefixOf("  /Encoding /", f.encoding); }
  }

  /** Reading a rendered font gives back its number, base font and encoding, so the
      `/Name` it carries is `/F` and its own object number. */
  lemma FontRoundTrip(f: Font)
    requires '\n' !in f.baseFont && '\n' !in f.encoding
    ensures ParseFont(Render(f)) == Some(f)
  {
    FontLinesSplit(f);
    FontLinesRead(f);
  }

  /** Every font built by the constructor reads back as `/Type1` with
      `/MacRomanEncoding` and the base font exactly as passed. */
  lemma NewFontReads(id: nat, base: string)
    requires '\n' !in base
    ensures ParseFont(Render(NewFont(id, base))) == Some(Font(id, base, MacRoman))
  {
    FontRoundTrip(NewFont(id, base));
  }

  /** The rendering opens with the object header and ends with `endobj` and no
      newline after it. */
  lemma FontFrame(f: Font)
    ensures StartsWithHeader(Bytes(f), f.objectId)
    ensures EndsWith(Render(f), "endobj")
  {
    var ls := FontLines(f);
    JoinFirst(ls, '\n');
    HeaderOpens(f.objectId, Join(ls[1..], '\n'));
    JoinLast(ls, '\n');
  }

  /** For an ASCII base font the bytes are as many as the characters. */
  lemma FontAsciiLength(f: Font)
    requires IsAscii(f.baseFont) && f.encoding == MacRoman
    ensures |Bytes(f)| == |Render(f)|
  {
    var ls := FontLines(f);
    NatStrAscii(f.objectId);
    assert IsAscii(ls[0]);
    assert IsAscii(ls[3]);
    assert IsAscii(ls[4]);
    AsciiLines(ls);
  }
}
