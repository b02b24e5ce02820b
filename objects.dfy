/** The indirect objects of pdf_maker/pdf.py other than fonts, each as a pure
    renderer of its exact bytes, with a reader that recovers what the renderer
    was given: page sizes, the metadata (info) dictionary and its UTF-16 text
    strings, text instructions, content streams, pages, the catalog, the
    outlines and the page-tree root. */
module Objects {
  import opened Strings
  import opened Unicode
  import opened Syntax
  import opened Fonts

  // ---------------------------------------------------------------------------
  // Page sizes

  datatype Size = Size(width: nat, height: nat)

  /** The ISO A-series presets, portrait, in points. */
  datatype PageSize = A0 | A1 | A2 | A3 | A4 | A5 | A6 | A7 | A8 | A9
  {
    function Dimensions(): (s: Size)
      ensures s.width < s.height
    {
      match this
      case A0 => Size(2384, 3370)
      case A1 => Size(1684, 2384)
      case A2 => Size(1191, 1684)
      case A3 => Size(842, 1191)
      case A4 => Size(595, 842)
      case A5 => Size(420, 595)
      case A6 => Size(297, 420)
      case A7 => Size(210, 297)
      case A8 => Size(148, 210)
      case A9 => Size(105, 148)
    }
  }

  // ---------------------------------------------------------------------------
  // Metadata (the document information dictionary)

  /** The generator name written as `/Producer`. */
  const Producer := "PyPdf"

  datatype Metadata = Metadata(objectId: nat, title: string, creator: string)

  /** `Metadata(object_id)`: title and creator default to the empty string. */
  function NewMetadata(objectId: nat): Metadata
  {
    Metadata(objectId, "", "")
  }

  /** `encode_metadata(s)`: `(`, the byte-order mark FE FF, the UTF-16BE units, `)`. */
  function EncodeMetadata(s: string): (r: seq<Byte>)
    ensures |r| >= 2 * |s| + 4
    ensures IsBmp(s) ==> |r| == 2 * |s| + 4
    ensures s == "" ==> r == [0x28, 0xFE, 0xFF, 0x29]
  {
    [0x28, 0xFE, 0xFF] + Utf16Be(s) + [0x29]
  }

  /** The `/Producer` value as written, computed once. */
  const ProducerField: seq<Byte> := EncodeMetadata(Producer)

  /** A reader for a text string written by `EncodeMetadata`. */
  function DecodeMetadataString(b: seq<Byte>): Option<string>
  {
    if |b| >= 4 && b[..3] == [0x28, 0xFE, 0xFF] && b[|b| - 1] == 0x29
    then DecodeUtf16Be(b[3..|b| - 1])
    else None
  }

  /** Every metadata string reads back unchanged. */
  lemma MetadataStringRoundTrip(s: string)
    ensures DecodeMetadataString(EncodeMetadata(s)) == Some(s)
  {
    var b := EncodeMetadata(s);
    assert b[3..|b| - 1] == Utf16Be(s);
    Utf16RoundTrip(s);
  }

  /** On ASCII text the string is written as `(`, FE FF, then a zero byte and the
      character's code for each character, then `)`. */
  lemma EncodeMetadataAscii(s: string)
    requires IsAscii(s)
    ensures |EncodeMetadata(s)| == 2 * |s| + 4
    ensures EncodeMetadata(s)[..3] == [0x28, 0xFE, 0xFF]
    ensures EncodeMetadata(s)[2 * |s| + 3] == 0x29
    ensures forall i :: 0 <= i < |s| ==>
      EncodeMetadata(s)[3 + 2 * i] == 0 && EncodeMetadata(s)[4 + 2 * i] == s[i] as int
  {
    Utf16BeAscii(s);
    var r := EncodeMetadata(s);
    forall i | 0 <= i < |s|
      ensures r[3 + 2 * i] == 0 && r[4 + 2 * i] == s[i] as int
    {
      assert r[3 + 2 * i] == Utf16Be(s)[2 * i];
      assert r[4 + 2 * i] == Utf16Be(s)[2 * i + 1];
    }
  }

  /** On ASCII text each character becomes a zero byte and its code. */
  lemma {:induction false} Utf16BeAscii(s: string)
    requires IsAscii(s)
    ensures |Utf16Be(s)| == 2 * |s|
    ensures forall i :: 0 <= i < |s| ==> Utf16Be(s)[2 * i] == 0 && Utf16Be(s)[2 * i + 1] == s[i] as int
  {
    if s != [] {
      var t := s[1..];
      assert IsAscii(t) by {
        forall i | 0 <= i < |s| - 1 ensures t[i] as int < 128 { assert t[i] == s[i + 1]; }
      }
      Utf16BeAscii(t);
      var u := Utf16Units(s[0]);
      assert UnitBytes(u) == [0, s[0] as int] by {
        assert UnitBytes(u) == [u[0] / 0x100, u[0] % 0x100] + UnitBytes([]);
      }
      var r, rt := Utf16Be(s), Utf16Be(t);
      assert r == [0, s[0] as int] + rt;
      hide Utf16Be;
      forall i | 0 <= i < |s|
        ensures r[2 * i] == 0 && r[2 * i + 1] == s[i] as int
      {
        if i > 0 {
          assert r[2 * i] == rt[2 * (i - 1)];
          assert r[2 * i + 1] == rt[2 * (i - 1) + 1];
          assert s[i] == t[i - 1];
        }
      }
    }
  }

  /** `bytes(metadata)`: the numeral, the encoded strings and the creation time,
      given as the fourteen digits `strftime` writes after its literal `D`,
      between the byte literals (adjacent literals taken as one), grouped from
      the right as a reader takes them apart. */
  function MetadataBytes(m: Metadata, stamp: string): seq<Byte>
  {
    Utf8(NatStr(m.objectId))
    + (TitleKey + (EncodeMetadata(m.title)
    + (CreatorKey + (EncodeMetadata(m.creator)
    + (ProducerKey + (ProducerField
    + (DateKey + (Utf8("D" + stamp) + MetadataEnd))))))))
  }

  const TitleKey: seq<Byte> := Ascii(" 0 obj\n<<\n  /Title ")
  const CreatorKey: seq<Byte> := Ascii("\n  /Creator ")
  const ProducerKey: seq<Byte> := Ascii("\n  /Producer ")
  const DateKey: seq<Byte> := Ascii("\n  /CreationDate (D: ")
  const MetadataEnd: seq<Byte> := Ascii("Z)\n>>\nendobj")

  /** The bytes literal `b'endobj'` that closes the info dictionary's object. */
  const EndObj: seq<Byte> := Ascii("endobj")

  /** The info dictionary opens with its object header and ends with `endobj`. */
  lemma MetadataFrame(m: Metadata, stamp: string)
    ensures StartsWithHeader(MetadataBytes(m, stamp), m.objectId)
    ensures |MetadataBytes(m, stamp)| >= 6
    ensures MetadataBytes(m, stamp)[|MetadataBytes(m, stamp)| - 6..] == EndObj
  {
    HeaderBytesAre(m.objectId);
    assert Ascii(" 0 obj\n") <= TitleKey;
    MetadataCloses(m, stamp);
    var n := Utf8(NatStr(m.objectId));
    var rest := EncodeMetadata(m.title)
      + (CreatorKey + (EncodeMetadata(m.creator)
      + (ProducerKey + (ProducerField
      + (DateKey + (Utf8("D" + stamp) + MetadataEnd))))));
    assert n + Ascii(" 0 obj\n") <= n + (TitleKey + rest) by {
      hide *;
      PrefixThen(n, Ascii(" 0 obj\n"), TitleKey, rest);
    }
  }

  /** The last six bytes are the literal `endobj`. */
  lemma MetadataCloses(m: Metadata, stamp: string)
    ensures |MetadataBytes(m, stamp)| >= 6
    ensures MetadataBytes(m, stamp)[|MetadataBytes(m, stamp)| - 6..] == EndObj
  {
    assert EndsWith(MetadataEnd, EndObj) by {
      assert |MetadataEnd| == 12 && MetadataEnd[6..] == EndObj;
    }
    var b := Utf8(NatStr(m.objectId))
      + (TitleKey + (EncodeMetadata(m.title)
      + (CreatorKey + (EncodeMetadata(m.creator)
      + (ProducerKey + (ProducerField
      + (DateKey + (Utf8("D" + stamp) + MetadataEnd))))))));
    assert EndsWith(b, EndObj) by {
      hide *;
      EndsWithNested(Utf8(NatStr(m.objectId)), TitleKey, EncodeMetadata(m.title), CreatorKey,
                     EncodeMetadata(m.creator), ProducerKey, ProducerField, DateKey,
                     Utf8("D" + stamp), MetadataEnd, EndObj);
    }
  }

  /** `EndsWithThen` through the nine pieces in front of the info dictionary's end. */
  lemma EndsWithNested<T>(a1: seq<T>, a2: seq<T>, a3: seq<T>, a4: seq<T>, a5: seq<T>,
                          a6: seq<T>, a7: seq<T>, a8: seq<T>, a9: seq<T>, z: seq<T>, e: seq<T>)
    requires EndsWith(z, e)
    ensures EndsWith(a1 + (a2 + (a3 + (a4 + (a5 + (a6 + (a7 + (a8 + (a9 + z)))))))), e)
  {
    hide EndsWith;
    var t := a9 + z;
    EndsWithThen(a9, z, e);
    EndsWithThen(a8, t, e);
    t := a8 + t;
    EndsWithThen(a7, t, e);
    t := a7 + t;
    EndsWithThen(a6, t, e);
    t := a6 + t;
    EndsWithThen(a5, t, e);
    t := a5 + t;
    EndsWithThen(a4, t, e);
    t := a4 + t;
    EndsWithThen(a3, t, e);
    t := a3 + t;
    EndsWithThen(a2, t, e);
    t := a2 + t;
    EndsWithThen(a1, t, e);
  }

  /** A prefix of the second piece stays a prefix behind the first. */
  lemma PrefixThen<T>(n: seq<T>, p: seq<T>, k: seq<T>, rest: seq<T>)
    requires p <= k
    ensures n + p <= n + (k + rest)
  {
    assert (n + (k + rest))[..|n + p|] == n + p;
  }

  /** A suffix of the last piece stays a suffix with more in front. */
  lemma EndsWithThen<T>(a: seq<T>, b: seq<T>, e: seq<T>)
    requires EndsWith(b, e)
    ensures EndsWith(a + b, e)
  {
    assert (a + b)[|a + b| - |e|..] == b[|b| - |e|..];
  }

  /** The exact length of the info dictionary: 100 fixed bytes, the numeral, the
      UTF-16BE title and creator and the UTF-8 time stamp. With BMP title and
      creator and an ASCII stamp that is two bytes per title or creator character
      and one per stamp digit: the empty document's is 115 bytes. */
  lemma MetadataLength(m: Metadata, stamp: string)
    ensures |MetadataBytes(m, stamp)|
         == |NatStr(m.objectId)| + |Utf16Be(m.title)| + |Utf16Be(m.creator)| + |Utf8(stamp)| + 100
    ensures IsBmp(m.title) && IsBmp(m.creator) && IsAscii(stamp) ==>
      |MetadataBytes(m, stamp)| == |NatStr(m.objectId)| + 2 * |m.title| + 2 * |m.creator| + |stamp| + 100
  {
    NatStrAscii(m.objectId);
    Utf8Append("D", stamp);
    assert IsBmp(Producer);
  }

  /** The length of the run of ASCII digits that opens `b`. */
  function DigitRun(b: seq<Byte>): (k: nat)
    ensures k <= |b|
  {
    if b != [] && 0x30 <= b[0] <= 0x39 then 1 + DigitRun(b[1..]) else 0
  }

  /** A numeral followed by a space: the run is exactly the numeral. */
  lemma {:induction false} DigitRunOf(s: string, rest: seq<Byte>)
    requires IsDigits(s) && rest != [] && rest[0] == 0x20
    ensures DigitRun(Utf8(s) + rest) == |s|
  {
    DigitsAscii(s);
    Utf8IsAscii(s);
    if s != [] {
      DigitsAscii(s[1..]);
      Utf8IsAscii(s[1..]);
      assert (Ascii(s) + rest)[1..] == Ascii(s[1..]) + rest;
      DigitRunOf(s[1..], rest);
    }
  }

  /** Puts `p` in front of the units a split found. */
  function Glue(p: seq<Byte>, r: Option<(seq<Byte>, seq<Byte>)>): Option<(seq<Byte>, seq<Byte>)>
  {
    match r
    case None => None
    case Some((units, rest)) => Some((p + units, rest))
  }

  /** Takes two-byte code units off the front of `b` up to the first unit whose
      bytes are `)` and a newline, where a written title or creator ends; gives
      the units before it and the bytes after the `)`. */
  function SplitAtClose(b: seq<Byte>): Option<(seq<Byte>, seq<Byte>)>
    decreases |b|
  {
    if |b| < 2 then None
    else if b[0] == 0x29 && b[1] == 0x0A then Some(([], b[1..]))
    else Glue(b[..2], SplitAtClose(b[2..]))
  }

  /** The units of any character other than U+290A are passed over. */
  lemma SplitAtCloseSkips(c: char, t: seq<Byte>)
    requires c != '\U{290A}'
    ensures SplitAtClose(UnitBytes(Utf16Units(c)) + t) == Glue(UnitBytes(Utf16Units(c)), SplitAtClose(t))
  {
    var u := Utf16Units(c);
    var v := c as int;
    var b := UnitBytes(u) + t;
    if v < 0x10000 {
      assert UnitBytes(u) == [v / 0x100, v % 0x100] by {
        assert UnitBytes(u) == [u[0] / 0x100, u[0] % 0x100] + UnitBytes([]);
      }
      assert b[..2] == UnitBytes(u) && b[2..] == t;
    } else {
      assert UnitBytes(u) == [u[0] / 0x100, u[0] % 0x100, u[1] / 0x100, u[1] % 0x100] by {
        assert UnitBytes(u) == [u[0] / 0x100, u[0] % 0x100] + UnitBytes(u[1..]);
        assert UnitBytes(u[1..]) == [u[1] / 0x100, u[1] % 0x100] + UnitBytes([]);
      }
      var low := b[2..];
      assert low == [u[1] / 0x100, u[1] % 0x100] + t;
      assert low[..2] == [u[1] / 0x100, u[1] % 0x100] && low[2..] == t;
      assert b[..2] + low[..2] == UnitBytes(u);
      match SplitAtClose(t)
      case None =>
      case Some((units, rest)) =>
        assert b[..2] + (low[..2] + units) == UnitBytes(u) + units;
    }
  }

  /** The encoding of text without U+290A splits off whole at the `)` after it. */
  lemma {:induction false} SplitAtCloseOf(s: string, t: seq<Byte>)
    requires '\U{290A}' !in s
    requires |t| >= 2 && t[0] == 0x29 && t[1] == 0x0A
    ensures SplitAtClose(Utf16Be(s) + t) == Some((Utf16Be(s), t[1..]))
  {
    if s == [] {
      assert Utf16Be(s) + t == t;
    } else {
      var p := UnitBytes(Utf16Units(s[0]));
      assert Utf16Be(s) + t == p + (Utf16Be(s[1..]) + t);
      SplitAtCloseSkips(s[0], Utf16Be(s[1..]) + t);
      SplitAtCloseOf(s[1..], t);
    }
  }

  /** Reads one value written by `encode_metadata` off the front of `b`; gives the
      text and the bytes after its `)`. */
  function ReadMetadataString(b: seq<Byte>): Option<(string, seq<Byte>)>
  {
    var body :- StripPrefix(b, [0x28, 0xFE, 0xFF]);
    var split :- SplitAtClose(body);
    var s :- DecodeUtf16Be(split.0);
    Some((s, split.1))
  }

  /** A written value followed by a newline reads back as its text. */
  lemma ReadMetadataStringOf(s: string, rest: seq<Byte>)
    requires '\U{290A}' !in s
    requires rest != [] && rest[0] == 0x0A
    ensures ReadMetadataString(EncodeMetadata(s) + rest) == Some((s, rest))
  {
    var t := [0x29] + rest;
    assert EncodeMetadata(s) + rest == [0x28, 0xFE, 0xFF] + (Utf16Be(s) + t);
    StripPrefixOf([0x28, 0xFE, 0xFF], Utf16Be(s) + t);
    SplitAtCloseOf(s, t);
    assert t[1..] == rest;
    Utf16RoundTrip(s);
  }

  /** A reader for `bytes(metadata)`: the object number, title and creator as a
      `Metadata`, then the producer and the time stamp after its literal `D`. */
  function ParseMetadata(b: seq<Byte>): Option<(Metadata, string, string)>
  {
    var k := DigitRun(b);
    var id :- ParseNat(AsciiDecode(b[..k]));
    var atTitle :- StripPrefix(b[k..], TitleKey);
    var title :- ReadMetadataString(atTitle);
    var atCreator :- StripPrefix(title.1, CreatorKey);
    var creator :- ReadMetadataString(atCreator);
    var atProducer :- StripPrefix(creator.1, ProducerKey);
    var producer :- ReadMetadataString(atProducer);
    var atDate :- StripPrefix(producer.1, DateKey);
    var date :- StripSuffix(atDate, MetadataEnd);
    var d := AsciiDecode(date);
    if d == [] || d[0] != 'D' then None
    else Some((Metadata(id, title.0, creator.0), producer.0, d[1..]))
  }

  /** `bytes(metadata)` reads back as the metadata it was made from, the producer
      `PyPdf` and the time stamp. */
  lemma MetadataRoundTrip(m: Metadata, stamp: string)
    requires '\U{290A}' !in m.title && '\U{290A}' !in m.creator && IsAscii(stamp)
    ensures ParseMetadata(MetadataBytes(m, stamp)) == Some((m, Producer, stamp))
  {
    var n := Utf8(NatStr(m.objectId));
    var t8 := Utf8("D" + stamp) + MetadataEnd;
    var t6 := ProducerField + (DateKey + t8);
    var t4 := EncodeMetadata(m.creator) + (ProducerKey + t6);
    var t2 := EncodeMetadata(m.title) + (CreatorKey + t4);
    var b := MetadataBytes(m, stamp);
    assert b == n + (TitleKey + t2);
    DigitRunOf(NatStr(m.objectId), TitleKey + t2);
    assert b[..|n|] == n && b[|n|..] == TitleKey + t2;
    NatStrAscii(m.objectId);
    AsciiRoundTrip(NatStr(m.objectId));
    ParseNatStr(m.objectId);
    StripPrefixOf(TitleKey, t2);
    ReadMetadataStringOf(m.title, CreatorKey + t4);
    StripPrefixOf(CreatorKey, t4);
    ReadMetadataStringOf(m.creator, ProducerKey + t6);
    StripPrefixOf(ProducerKey, t6);
    ReadMetadataStringOf(Producer, DateKey + t8);
    StripPrefixOf(DateKey, t8);
    StripSuffixOf(Utf8("D" + stamp), MetadataEnd);
    StampAscii(stamp);
    AsciiRoundTrip("D" + stamp);
  }

  /** The time stamp behind its literal `D` is still ASCII. */
  lemma StampAscii(stamp: string)
    requires IsAscii(stamp)
    ensures IsAscii("D" + stamp)
  {
    forall i | 0 <= i < |stamp| + 1 ensures ("D" + stamp)[i] as int < 128 {
      if i > 0 { assert ("D" + stamp)[i] == stamp[i - 1]; }
    }
  }

  /** `bytes(Metadata(object_id))`: empty title and creator read back, with the
      producer `PyPdf` and the time stamp. */
  lemma NewMetadataReads(objectId: nat, stamp: string)
    requires IsAscii(stamp)
    ensures ParseMetadata(MetadataBytes(NewMetadata(objectId), stamp))
         == Some((Metadata(objectId, "", ""), Producer, stamp))
  {
    MetadataRoundTrip(NewMetadata(objectId), stamp);
  }

  // ---------------------------------------------------------------------------
  // Text instructions and the text they contribute to a content stream

  /** A `Text` instruction: what to show, in which font and size, where. */
  datatype Text = Text(text: string, font: Font, fontSize: nat, x: nat, y: nat)

  /** `Text(text, font, font_size)`: the position starts at the origin. */
  function NewText(text: string, font: Font, fontSize: nat): Text
  {
    Text(text, font, fontSize, 0, 0)
  }

  function TextLines(t: Text): seq<string>
  {
    [ "  BT",
      "    /F" + NatStr(t.font.objectId) + " " + NatStr(t.fontSize) + " Tf",
      "    " + NatStr(t.x) + " " + NatStr(t.y) + " Td",
      "    (" + t.text + ") Tj",
      "  ET" ]
  }

  /** `str(text)`: five lines, each ending in a newline. */
  function TextStr(t: Text): string
  {
    Join(TextLines(t), '\n') + "\n"
  }

  /** The concatenation of `str(i)` over a content's instructions. */
  function InstructionText(ts: seq<Text>): string
  {
    if ts == [] then "" else TextStr(ts[0]) + InstructionText(ts[1..])
  }

  /** What a reader of the stream sees of one instruction. */
  datatype Operation = ShowText(fontId: nat, fontSize: nat, x: nat, y: nat, text: string)

  function OperationOf(t: Text): Operation
  {
    ShowText(t.font.objectId, t.fontSize, t.x, t.y, t.text)
  }

  function OperationsOf(ts: seq<Text>): (ops: seq<Operation>)
    ensures |ops| == |ts|
    ensures forall i :: 0 <= i < |ts| ==> ops[i] == OperationOf(ts[i])
  {
    if ts == [] then [] else [OperationOf(ts[0])] + OperationsOf(ts[1..])
  }

  /** Reads the five lines of one `BT … ET` block. */
  function ParseTextBlock(ls: seq<string>): Option<Operation>
    requires |ls| == 5
  {
    if ls[0] != "  BT" || ls[4] != "  ET" then None
    else
      match (Between(ls[1], "    /F", " Tf"), Between(ls[2], "    ", " Td"), Between(ls[3], "    (", ") Tj"))
      case (Some(tf), Some(td), Some(text)) =>
        (match (ParsePair(tf), ParsePair(td))
         case (Some((fontId, size)), Some((x, y))) => Some(ShowText(fontId, size, x, y, text))
         case _ => None)
      case _ => None
  }

  /** Reads the lines of an instruction text back into operations. */
  function ReadOperations(ls: seq<string>): Option<seq<Operation>>
    decreases |ls|
  {
    if ls == [""] then Some([])
    else if |ls| < 6 then None
    else
      match (ParseTextBlock(ls[..5]), ReadOperations(ls[5..]))
      case (Some(op), Some(rest)) => Some([op] + rest)
      case _ => None
  }

  predicate NoNewlines(ts: seq<Text>)
  {
    forall i :: 0 <= i < |ts| ==> '\n' !in ts[i].text
  }

  lemma TextBlockReads(t: Text)
    requires '\n' !in t.text
    ensures NoneContain(TextLines(t), '\n')
    ensures ParseTextBlock(TextLines(t)) == Some(OperationOf(t))
  {
    var ls := TextLines(t);
    NatStrHasNo(t.font.objectId, '\n');
    NatStrHasNo(t.fontSize, '\n');
    NatStrHasNo(t.x, '\n');
    NatStrHasNo(t.y, '\n');
    assert NoneContain(ls, '\n') by {
      forall i | 0 <= i < 5 ensures '\n' !in ls[i] { if i == 1 {} else if i == 2 {} else if i == 3 {} }
    }
    var tf := NatStr(t.font.objectId) + " " + NatStr(t.fontSize);
    var td := NatStr(t.x) + " " + NatStr(t.y);
    assert ls[1] == "    /F" + tf + " Tf";
    assert ls[2] == "    " + td + " Td";
    BetweenOf("    /F", tf, " Tf");
    BetweenOf("    ", td, " Td");
    BetweenOf("    (", t.text, ") Tj");
    ParsePairOf(t.font.objectId, t.fontSize);
    ParsePairOf(t.x, t.y);
    assert Between(ls[1], "    /F", " Tf") == Some(tf);
    assert Between(ls[2], "    ", " Td") == Some(td);
    assert Between(ls[3], "    (", ") Tj") == Some(t.text);
  }

  /** A text instruction built by `Text(text, font, font_size)` reads back as a
      `Tj` in that font and size, positioned at the origin by its `Td`. */
  lemma NewTextReads(text: string, font: Font, fontSize: nat)
    requires '\n' !in text
    ensures ParseTextBlock(TextLines(NewText(text, font, fontSize)))
         == Some(ShowText(font.objectId, fontSize, 0, 0, text))
  {
    TextBlockReads(NewText(text, font, fontSize));
  }

  /** Splitting one instruction's text off the front yields its five lines. */
  lemma SplitTextStr(t: Text, rest: string)
    requires '\n' !in t.text
    ensures Split(TextStr(t) + rest, '\n') == TextLines(t) + Split(rest, '\n')
  {
    var ls := TextLines(t);
    TextBlockReads(t);
    JoinAppend(ls, [rest], '\n');
    assert Join(ls + [rest], '\n') == TextStr(t) + rest;
    SplitJoinTail(ls, rest);
  }

  lemma SplitJoinTail(ls: seq<string>, rest: string)
    requires |ls| >= 1 && NoneContain(ls, '\n')
    ensures Split(Join(ls + [rest], '\n'), '\n') == ls + Split(rest, '\n')
  {
    var tail := Split(rest, '\n');
    JoinSplit(rest, '\n');
    JoinAppend(ls, tail, '\n');
    JoinAppend(ls, [rest], '\n');
    assert Join([rest], '\n') == rest;
    NoneContainConcat(ls, tail, '\n');
    SplitJoin(ls + tail, '\n');
  }

  /** A reader recovers from the instruction text every instruction's font
      number, size, position and text, in order. */
  lemma {:induction false} InstructionTextRoundTrip(ts: seq<Text>)
    requires NoNewlines(ts)
    ensures ReadOperations(Split(InstructionText(ts), '\n')) == Some(OperationsOf(ts))
  {
    if ts != [] {
      var rest := InstructionText(ts[1..]);
      SplitTextStr(ts[0], rest);
      InstructionTextRoundTrip(ts[1..]);
      TextBlockReads(ts[0]);
      var ls := TextLines(ts[0]) + Split(rest, '\n');
      assert ls[..5] == TextLines(ts[0]);
      assert ls[5..] == Split(rest, '\n');
    }
  }

  // ---------------------------------------------------------------------------
  // Content streams

  datatype ContentEncoding = PlainText | Flate

  /** The lines of the stream dictionary and the `stream` keyword; the last one is
      empty, so the head ends in a newline. */
  function StreamHeadLines(id: nat, length: nat, encoding: ContentEncoding): seq<string>
  {
    match encoding
    case PlainText => [HeaderLine(id), "  << /Length " + NatStr(length) + " >>", "  stream", ""]
    case Flate =>
      [HeaderLine(id), "  << /Length " + NatStr(length) + " ", "/Filter /FlateDecode ", ">>", "  stream", ""]
  }

  function StreamHead(id: nat, length: nat, encoding: ContentEncoding): string
  {
    Join(StreamHeadLines(id, length, encoding), '\n')
  }

  const StreamTail := "  endstream\nendobj\n"

  lemma StreamTailAscii()
    ensures IsAscii(StreamTail)
  {
    forall i | 0 <= i < |StreamTail| ensures StreamTail[i] as int < 128 {
    }
  }

  /** `bytes(content)`. In plain mode the whole object is text and `/Length`
      counts the characters of the instruction text; otherwise the UTF-8 bytes
      of that text go through `compress` and `/Length` counts the result. The
      closing text is ASCII, so its encoding is its bytes literal. */
  function ContentBytes(id: nat, ts: seq<Text>, encoding: ContentEncoding,
                        compress: seq<Byte> -> seq<Byte>): seq<Byte>
  {
    var text := InstructionText(ts);
    match encoding
    case PlainText => Utf8(StreamHead(id, |text|, PlainText) + text + StreamTail)
    case Flate =>
      var res := compress(Utf8(text));
      StreamTailAscii();
      Utf8(StreamHead(id, |res|, Flate)) + res + Ascii(StreamTail)
  }

  /** What a reader learns from a stream head. */
  datatype StreamInfo = StreamInfo(objectId: nat, length: nat, encoding: ContentEncoding)

  function ParseStreamHead(s: string): Option<StreamInfo>
  {
    ParseStreamHeadLines(Split(s, '\n'))
  }

  /** Reads the lines of a stream head: four for a plain stream, six for a
      compressed one. */
  function ParseStreamHeadLines(ls: seq<string>): Option<StreamInfo>
  {
    if |ls| == 4 && ls[2] == "  stream" && ls[3] == "" then
      var id := ParseHeaderLine(ls[0]);
      var n := ParseNumberLine(ls[1], "  << /Length ", " >>");
      if id.Some? && n.Some? then Some(StreamInfo(id.value, n.value, PlainText)) else None
    else if |ls| == 6 && ls[2] == "/Filter /FlateDecode " && ls[3] == ">>"
            && ls[4] == "  stream" && ls[5] == "" then
      var id := ParseHeaderLine(ls[0]);
      var n := ParseNumberLine(ls[1], "  << /Length ", " ");
      if id.Some? && n.Some? then Some(StreamInfo(id.value, n.value, Flate)) else None
    else None
  }

  lemma StreamHeadRoundTrip(id: nat, length: nat, encoding: ContentEncoding)
    ensures ParseStreamHead(StreamHead(id, length, encoding)) == Some(StreamInfo(id, length, encoding))
  {
    var ls := StreamHeadLines(id, length, encoding);
    if encoding == PlainText {
      PlainHeadLinesRead(id, length);
    } else {
      FlateHeadLinesRead(id, length);
    }
    assert |ls| >= 4;
    hide StreamHeadLines;
    hide ParseStreamHeadLines;
    SplitJoin(ls, '\n');
  }

  /** The plain head's lines hold no newline; the second carries the length. */
  lemma PlainHeadLinesRead(id: nat, length: nat)
    ensures NoneContain(StreamHeadLines(id, length, PlainText), '\n')
    ensures ParseStreamHeadLines(StreamHeadLines(id, length, PlainText)) == Some(StreamInfo(id, length, PlainText))
  {
    PlainHeadOneLineEach(id, length);
    var ls := StreamHeadLines(id, length, PlainText);
    assert ls[0] == HeaderLine(id);
    assert ls[1] == "  << /Length " + NatStr(length) + " >>";
    ParseHeaderLineOf(id);
    ParseNumberLineOf("  << /Length ", length, " >>");
    hide HeaderLine;
    hide ParseHeaderLine;
    hide ParseNumberLine;
  }

  lemma PlainHeadOneLineEach(id: nat, length: nat)
    ensures NoneContain(StreamHeadLines(id, length, PlainText), '\n')
  {
    NatStrHasNo(id, '\n');
    NatStrHasNo(length, '\n');
    var ls := StreamHeadLines(id, length, PlainText);
    forall i | 0 <= i < 4 ensures '\n' !in ls[i] { if i == 0 {} else if i == 1 {} }
  }

  /** The compressed head's lines hold no newline; the second carries the length. */
  lemma FlateHeadLinesRead(id: nat, length: nat)
    ensures NoneContain(StreamHeadLines(id, length, Flate), '\n')
    ensures ParseStreamHeadLines(StreamHeadLines(id, length, Flate)) == Some(StreamInfo(id, length, Flate))
  {
    FlateHeadOneLineEach(id, length);
    var ls := StreamHeadLines(id, length, Flate);
    assert ls[0] == HeaderLine(id);
    assert ls[1] == "  << /Length " + NatStr(length) + " ";
    ParseHeaderLineOf(id);
    ParseNumberLineOf("  << /Length ", length, " ");
    hide HeaderLine;
    hide ParseHeaderLine;
    hide ParseNumberLine;
  }

  lemma FlateHeadOneLineEach(id: nat, length: nat)
    ensures NoneContain(StreamHeadLines(id, length, Flate), '\n')
  {
    NatStrHasNo(id, '\n');
    NatStrHasNo(length, '\n');
    var ls := StreamHeadLines(id, length, Flate);
    forall i | 0 <= i < 6 ensures '\n' !in ls[i] { if i == 0 {} else if i == 1 {} else if i == 2 {} }
  }

  /** A compressed content object is its head, the compressed body verbatim and
      `  endstream`; the `/Length` a reader finds in the head is the body's exact
      byte count, and the body is the compressed instruction text. */
  lemma FlateContentLayout(id: nat, ts: seq<Text>, compress: seq<Byte> -> seq<Byte>)
    ensures exists head: string, body: seq<Byte> ::
      && ContentBytes(id, ts, Flate, compress) == Utf8(head) + body + Ascii(StreamTail)
      && body == compress(Utf8(InstructionText(ts)))
      && ParseStreamHead(head) == Some(StreamInfo(id, |body|, Flate))
  {
    hide ParseStreamHead;
    hide StreamHead;
    hide Utf8;
    hide InstructionText;
    var body := compress(Utf8(InstructionText(ts)));
    var head := StreamHead(id, |body|, Flate);
    assert ContentBytes(id, ts, Flate, compress) == Utf8(head) + body + Ascii(StreamTail);
    StreamHeadRoundTrip(id, |body|, Flate);
  }

  /** A plain content object is its head, the UTF-8 instruction text and
      `  endstream`; its `/Length` is the character count of that text, which is
      the byte count of the body exactly when the text is ASCII. */
  lemma PlainContentLayout(id: nat, ts: seq<Text>, compress: seq<Byte> -> seq<Byte>)
    ensures exists head: string, body: seq<Byte> ::
      && ContentBytes(id, ts, PlainText, compress) == Utf8(head) + body + Ascii(StreamTail)
      && body == Utf8(InstructionText(ts))
      && ParseStreamHead(head) == Some(StreamInfo(id, |InstructionText(ts)|, PlainText))
      && (|InstructionText(ts)| == |body| <==> IsAscii(InstructionText(ts)))
  {
    hide ParseStreamHead;
    hide StreamHead;
    hide InstructionText;
    var text := InstructionText(ts);
    var head := StreamHead(id, |text|, PlainText);
    assert ContentBytes(id, ts, PlainText, compress) == Utf8(head) + Utf8(text) + Ascii(StreamTail) by {
      Utf8ThenAscii(head + text, StreamTail);
      Utf8Append(head, text);
    }
    StreamHeadRoundTrip(id, |text|, PlainText);
  }

  /** Inflating a compressed body, with any inflater that undoes `compress`, and
      decoding it as UTF-8 gives the instruction text back, whatever characters it
      holds; when no text has a line break, the text reads back into the
      instructions. */
  lemma FlateBodyRoundTrip(ts: seq<Text>, compress: seq<Byte> -> seq<Byte>,
                           inflate: seq<Byte> -> seq<Byte>)
    requires forall b :: inflate(compress(b)) == b
    ensures DecodeUtf8(inflate(compress(Utf8(InstructionText(ts))))) == Some(InstructionText(ts))
    ensures NoNewlines(ts) ==>
      ReadOperations(Split(DecodeUtf8(inflate(compress(Utf8(InstructionText(ts))))).value, '\n'))
      == Some(OperationsOf(ts))
  {
    Utf8RoundTrip(InstructionText(ts));
    if NoNewlines(ts) {
      InstructionTextRoundTrip(ts);
    }
  }

  /** Every content object opens with its own header. */
  lemma ContentFrame(id: nat, ts: seq<Text>, encoding: ContentEncoding,
                     compress: seq<Byte> -> seq<Byte>)
    ensures StartsWithHeader(ContentBytes(id, ts, encoding, compress), id)
  {
    if encoding == PlainText {
      PlainContentFrame(id, ts, compress);
    } else {
      FlateContentFrame(id, ts, compress);
    }
  }

  lemma PlainContentFrame(id: nat, ts: seq<Text>, compress: seq<Byte> -> seq<Byte>)
    ensures StartsWithHeader(ContentBytes(id, ts, PlainText, compress), id)
  {
    var text := InstructionText(ts);
    var ls := StreamHeadLines(id, |text|, PlainText);
    var whole := StreamHead(id, |text|, PlainText) + text + StreamTail;
    var more := text + StreamTail;
    assert whole == Join(ls, '\n') + more;
    assert ContentBytes(id, ts, PlainText, compress) == Utf8(whole);
    LinesOpenWithHeader(ls, id, more);
  }

  lemma FlateContentFrame(id: nat, ts: seq<Text>, compress: seq<Byte> -> seq<Byte>)
    ensures StartsWithHeader(ContentBytes(id, ts, Flate, compress), id)
  {
    hide StartsWithHeader;
    hide StreamHead;
    hide Utf8;
    hide InstructionText;
    var res := compress(Utf8(InstructionText(ts)));
    FlateHeadOpens(id, |res|);
    HeaderStaysInFront(Utf8(StreamHead(id, |res|, Flate)), res + Ascii(StreamTail), id);
    assert ContentBytes(id, ts, Flate, compress) == Utf8(StreamHead(id, |res|, Flate)) + (res + Ascii(StreamTail));
  }

  lemma FlateHeadOpens(id: nat, length: nat)
    ensures StartsWithHeader(Utf8(StreamHead(id, length, Flate)), id)
  {
    var ls := StreamHeadLines(id, length, Flate);
    LinesOpenWithHeader(ls, id, "");
    assert Join(ls, '\n') + "" == StreamHead(id, length, Flate);
  }

  // ---------------------------------------------------------------------------
  // Pages

  /** The font numbers of a page's instructions, in instruction order. */
  function FontIds(ts: seq<Text>): (ids: seq<nat>)
    ensures |ids| == |ts|
    ensures forall i :: 0 <= i < |ts| ==> ids[i] == ts[i].font.objectId
  {
    if ts == [] then [] else [ts[0].font.objectId] + FontIds(ts[1..])
  }

  predicate Distinct(s: seq<nat>)
  {
    forall i, j :: 0 <= i < j < |s| ==> s[i] != s[j]
  }

  /** The position of the first occurrence of `x` in `s`. */
  function FirstIndex(s: seq<nat>, x: nat): (k: nat)
    requires x in s
    ensures k < |s| && s[k] == x && x !in s[..k]
  {
    if s[0] == x then 0 else 1 + FirstIndex(s[1..], x)
  }

  /** The `unique_font_ids` loop: each value once, in order of first use (the
      lemmas below prove the "once" and the order). */
  function Dedup(s: seq<nat>): (r: seq<nat>)
    ensures forall x :: x in r <==> x in s
  {
    if s == [] then []
    else
      var r := Dedup(s[..|s| - 1]);
      if s[|s| - 1] in r then r else r + [s[|s| - 1]]
  }

  /** No value is kept twice. */
  lemma {:induction false} DedupDistinct(s: seq<nat>)
    ensures Distinct(Dedup(s))
  {
    if s != [] {
      var front, x := s[..|s| - 1], s[|s| - 1];
      var r := Dedup(front);
      DedupDistinct(front);
      if x !in r {
        var r' := r + [x];
        forall i, j | 0 <= i < j < |r'| ensures r'[i] != r'[j] {
          if j == |r| {
            assert r'[i] == r[i] && r[i] in r;
          } else {
            assert r'[i] == r[i] && r'[j] == r[j];
          }
        }
      }
    }
  }

  /** The values are kept in the order of their first occurrence. */
  lemma {:induction false} DedupOrder(s: seq<nat>)
    ensures forall i, j :: 0 <= i < j < |Dedup(s)| ==> FirstIndex(s, Dedup(s)[i]) < FirstIndex(s, Dedup(s)[j])
  {
    if s != [] {
      var front, x := s[..|s| - 1], s[|s| - 1];
      var r := Dedup(front);
      DedupOrder(front);
      FirstIndexInFront(s, front);
      var d := Dedup(s);
      forall i, j | 0 <= i < j < |d| ensures FirstIndex(s, d[i]) < FirstIndex(s, d[j]) {
        assert d[i] == r[i] && r[i] in r && r[i] in front;
        if j < |r| {
          assert d[j] == r[j] && r[j] in r && r[j] in front;
        } else {
          assert x !in r && x !in front && d[j] == x;
          FirstIndexLast(s, x);
          assert FirstIndex(front, r[i]) < |front|;
        }
      }
    }
  }

  lemma FirstIndexInFront(s: seq<nat>, front: seq<nat>)
    requires |s| >= 1 && front == s[..|s| - 1]
    ensures forall y :: y in front ==> y in s && FirstIndex(s, y) == FirstIndex(front, y)
  {
    forall y | y in front ensures y in s && FirstIndex(s, y) == FirstIndex(front, y) {
      var k := FirstIndex(front, y);
      assert s[k] == y;
      FirstIndexIs(s, y, k);
    }
  }

  lemma FirstIndexLast(s: seq<nat>, x: nat)
    requires |s| >= 1 && x == s[|s| - 1] && x !in s[..|s| - 1]
    ensures FirstIndex(s, x) == |s| - 1
  {
    FirstIndexIs(s, x, |s| - 1);
  }

  /** The first occurrence is the one with nothing equal before it. */
  lemma {:induction false} FirstIndexIs(s: seq<nat>, x: nat, k: nat)
    requires k < |s| && s[k] == x && x !in s[..k]
    ensures FirstIndex(s, x) == k
  {
    if k > 0 {
      assert s[0] in s[..k];
      assert s[1..][k - 1] == x;
      assert s[1..][..k - 1] == s[..k][1..];
      FirstIndexIs(s[1..], x, k - 1);
    }
  }

  /** `Page.__str__`'s `unique_font_ids`. */
  function UniqueFontIds(ts: seq<Text>): seq<nat>
  {
    Dedup(FontIds(ts))
  }

  function FontResourceLine(id: nat): string
  {
    "      /Font << /F" + NatStr(id) + " " + NatStr(id) + " 0 R >>"
  }

  /** The lines of a page up to the opening of its resource dictionary. */
  function PageHead(id: nat, parentId: nat, size: Size, contentId: nat): seq<string>
  {
    [ HeaderLine(id),
      "<< /Type /Page",
      "   /Parent " + NatStr(parentId) + " 0 R",
      "   /MediaBox [0 0 " + NatStr(size.width) + " " + NatStr(size.height) + "]",
      "   /Contents " + NatStr(contentId) + " 0 R",
      "   /Resources",
      "   <<" ]
  }

  const PageTail := [ "   >>", ">>", "endobj", "" ]

  function PageLines(id: nat, parentId: nat, size: Size, contentId: nat, ts: seq<Text>): seq<string>
  {
    PageHead(id, parentId, size, contentId) + RenderEach(UniqueFontIds(ts), FontResourceLine) + PageTail
  }

  /** `str(page)` (its bytes are its UTF-8 encoding): the parent is the page-tree
      root, the media box is the effective page size. */
  function PageStr(id: nat, parentId: nat, size: Size, contentId: nat, ts: seq<Text>): string
  {
    Join(PageLines(id, parentId, size, contentId, ts), '\n')
  }

  /** What a reader learns from a page dictionary. */
  datatype PageInfo = PageInfo(objectId: nat, parentId: nat, size: Size, contentId: nat, fontIds: seq<nat>)

  function ParseFontResourceLine(l: string): Option<nat>
  {
    match Between(l, "      /Font << /F", " 0 R >>")
    case None => None
    case Some(pair) =>
      match ParsePair(pair)
      case Some((a, b)) => if a == b then Some(a) else None
      case None => None
  }

  function ParsePage(s: string): Option<PageInfo>
  {
    ParsePageLines(Split(s, '\n'))
  }

  function ParsePageLines(ls: seq<string>): Option<PageInfo>
  {
    if |ls| < 11 || ls[1] != "<< /Type /Page" || ls[5] != "   /Resources" || ls[6] != "   <<"
       || ls[|ls| - 4..] != PageTail then None
    else
      var id := ParseHeaderLine(ls[0]);
      var parent := ParseNumberLine(ls[2], "   /Parent ", " 0 R");
      var box := ParseMediaBox(ls[3]);
      var content := ParseNumberLine(ls[4], "   /Contents ", " 0 R");
      var fonts := ParseEach(ls[7..|ls| - 4], ParseFontResourceLine);
      if id.None? || parent.None? || box.None? || content.None? || fonts.None? then None
      else Some(PageInfo(id.value, parent.value, box.value, content.value, fonts.value))
  }

  function ParseMediaBox(l: string): Option<Size>
  {
    match Between(l, "   /MediaBox [0 0 ", "]")
    case None => None
    case Some(box) =>
      match ParsePair(box)
      case Some((w, h)) => Some(Size(w, h))
      case None => None
  }

  lemma FontResourceLineReads(n: nat)
    ensures '\n' !in FontResourceLine(n)
    ensures ParseFontResourceLine(FontResourceLine(n)) == Some(n)
  {
    NatStrHasNo(n, '\n');
    assert FontResourceLine(n) == "      /Font << /F" + (NatStr(n) + " " + NatStr(n)) + " 0 R >>";
    assert '\n' !in FontResourceLine(n);
    BetweenOf("      /Font << /F", NatStr(n) + " " + NatStr(n), " 0 R >>");
    ParsePairOf(n, n);
  }

  /** A reader of a page finds its number, parent, media box and contents
      reference, and one `/Font` resource per font its instructions use: each
      used font exactly once, in order of first use. */
  lemma PageRoundTrip(id: nat, parentId: nat, size: Size, contentId: nat, ts: seq<Text>)
    ensures ParsePage(PageStr(id, parentId, size, contentId, ts))
         == Some(PageInfo(id, parentId, size, contentId, UniqueFontIds(ts)))
  {
    var ls := PageLines(id, parentId, size, contentId, ts);
    PageLinesOneLineEach(id, parentId, size, contentId, ts);
    PageLinesRead(id, parentId, size, contentId, ts);
    assert |ls| >= 11;
    hide PageLines;
    hide ParsePageLines;
    SplitJoin(ls, '\n');
  }

  /** The lines of a page: its head, one `/Font` line per font, the closing lines. */
  lemma PageLinesParts(id: nat, parentId: nat, size: Size, contentId: nat, ts: seq<Text>)
    ensures |PageLines(id, parentId, size, contentId, ts)| == 11 + |UniqueFontIds(ts)|
    ensures PageLines(id, parentId, size, contentId, ts)[..7] == PageHead(id, parentId, size, contentId)
    ensures PageLines(id, parentId, size, contentId, ts)[7..|PageLines(id, parentId, size, contentId, ts)| - 4]
         == RenderEach(UniqueFontIds(ts), FontResourceLine)
    ensures PageLines(id, parentId, size, contentId, ts)[|PageLines(id, parentId, size, contentId, ts)| - 4..] == PageTail
  {
  }

  /** The lines of a page read back as its numbers, size and fonts. */
  lemma PageLinesRead(id: nat, parentId: nat, size: Size, contentId: nat, ts: seq<Text>)
    ensures |PageLines(id, parentId, size, contentId, ts)| >= 11
    ensures ParsePageLines(PageLines(id, parentId, size, contentId, ts))
         == Some(PageInfo(id, parentId, size, contentId, UniqueFontIds(ts)))
  {
    PageLinesParts(id, parentId, size, contentId, ts);
    hide PageLines;
    hide PageHead;
    hide UniqueFontIds;
    var fonts := UniqueFontIds(ts);
    var ls := PageLines(id, parentId, size, contentId, ts);
    forall n: nat ensures ParseFontResourceLine(FontResourceLine(n)) == Some(n) {
      FontResourceLineReads(n);
    }
    ParseEachOf(fonts, FontResourceLine, ParseFontResourceLine);
    PageHeadLinesRead(ls, id, parentId, size, contentId);
  }

  /** Lines that open with a page head read back as that head's numbers and size. */
  lemma PageHeadLinesRead(ls: seq<string>, id: nat, parentId: nat, size: Size, contentId: nat)
    requires |ls| >= 7 && ls[..7] == PageHead(id, parentId, size, contentId)
    ensures ls[1] == "<< /Type /Page" && ls[5] == "   /Resources" && ls[6] == "   <<"
    ensures ParseHeaderLine(ls[0]) == Some(id)
    ensures ParseNumberLine(ls[2], "   /Parent ", " 0 R") == Some(parentId)
    ensures ParseMediaBox(ls[3]) == Some(size)
    ensures ParseNumberLine(ls[4], "   /Contents ", " 0 R") == Some(contentId)
  {
    PageHeadReads(id, parentId, size, contentId);
    assert ls[0] == ls[..7][0];
    assert ls[1] == ls[..7][1];
    assert ls[2] == ls[..7][2];
    assert ls[3] == ls[..7][3];
    assert ls[4] == ls[..7][4];
    assert ls[5] == ls[..7][5];
    assert ls[6] == ls[..7][6];
  }

  lemma PageLinesOneLineEach(id: nat, parentId: nat, size: Size, contentId: nat, ts: seq<Text>)
    ensures NoneContain(PageLines(id, parentId, size, contentId, ts), '\n')
  {
    var fonts := UniqueFontIds(ts);
    var head := PageHead(id, parentId, size, contentId);
    var mid := RenderEach(fonts, FontResourceLine);
    PageHeadOneLineEach(id, parentId, size, contentId);
    assert NoneContain(mid, '\n') by {
      forall i | 0 <= i < |mid| ensures '\n' !in mid[i] { FontResourceLineReads(fonts[i]); }
    }
    assert NoneContain(PageTail, '\n') by {
      forall i | 0 <= i < 4 ensures '\n' !in PageTail[i] {}
    }
    NoneContainConcat(head, mid, '\n');
    NoneContainConcat(head + mid, PageTail, '\n');
  }

  /** `unique_font_ids` lists each font the instructions use exactly once, in the
      order of first use. */
  lemma UniqueFontIdsAre(ts: seq<Text>)
    ensures Distinct(UniqueFontIds(ts))
    ensures forall f :: f in UniqueFontIds(ts) <==> exists i :: 0 <= i < |ts| && ts[i].font.objectId == f
    ensures forall i, j :: 0 <= i < j < |UniqueFontIds(ts)| ==>
      FirstIndex(FontIds(ts), UniqueFontIds(ts)[i]) < FirstIndex(FontIds(ts), UniqueFontIds(ts)[j])
  {
    DedupDistinct(FontIds(ts));
    DedupOrder(FontIds(ts));
    forall f ensures f in UniqueFontIds(ts) <==> exists i :: 0 <= i < |ts| && ts[i].font.objectId == f {
      if f in FontIds(ts) {
        var i :| 0 <= i < |ts| && FontIds(ts)[i] == f;
      }
    }
  }

  /** The head lines hold no newline. */
  lemma PageHeadOneLineEach(id: nat, parentId: nat, size: Size, contentId: nat)
    ensures NoneContain(PageHead(id, parentId, size, contentId), '\n')
  {
    var head := PageHead(id, parentId, size, contentId);
    NatStrHasNo(id, '\n');
    NatStrHasNo(parentId, '\n');
    NatStrHasNo(contentId, '\n');
    NatStrHasNo(size.width, '\n');
    NatStrHasNo(size.height, '\n');
    forall i | 0 <= i < 7 ensures '\n' !in head[i] {
      if i == 0 {} else if i == 1 {} else if i == 2 {} else if i == 3 {} else if i == 4 {}
    }
  }

  /** The head lines read back as the page's number, parent, media box and
      contents reference. */
  lemma PageHeadReads(id: nat, parentId: nat, size: Size, contentId: nat)
    ensures ParseHeaderLine(PageHead(id, parentId, size, contentId)[0]) == Some(id)
    ensures ParseNumberLine(PageHead(id, parentId, size, contentId)[2], "   /Parent ", " 0 R") == Some(parentId)
    ensures Between(PageHead(id, parentId, size, contentId)[3], "   /MediaBox [0 0 ", "]")
         == Some(NatStr(size.width) + " " + NatStr(size.height))
    ensures ParsePair(NatStr(size.width) + " " + NatStr(size.height)) == Some((size.width, size.height))
    ensures ParseNumberLine(PageHead(id, parentId, size, contentId)[4], "   /Contents ", " 0 R") == Some(contentId)
  {
    var head := PageHead(id, parentId, size, contentId);
    ParseHeaderLineOf(id);
    ParseNumberLineOf("   /Parent ", parentId, " 0 R");
    ParseNumberLineOf("   /Contents ", contentId, " 0 R");
    assert head[3] == "   /MediaBox [0 0 " + (NatStr(size.width) + " " + NatStr(size.height)) + "]";
    BetweenOf("   /MediaBox [0 0 ", NatStr(size.width) + " " + NatStr(size.height), "]");
    ParsePairOf(size.width, size.height);
  }

  // ---------------------------------------------------------------------------
  // Catalog, outlines and the page-tree root

  function CatalogLines(catalogId: nat, outlinesId: nat, pageRootId: nat): seq<string>
  {
    [ HeaderLine(catalogId),
      "<< /Type /Catalog",
      "   /Outlines " + NatStr(outlinesId) + " 0 R",
      "   /Pages " + NatStr(pageRootId) + " 0 R",
      ">>",
      "endobj" ]
  }

  /** `get_catalog()`. */
  function CatalogStr(catalogId: nat, outlinesId: nat, pageRootId: nat): string
  {
    Join(CatalogLines(catalogId, outlinesId, pageRootId), '\n')
  }

  function ParseCatalog(s: string): Option<(nat, nat, nat)>
  {
    var ls := Split(s, '\n');
    if |ls| != 6 || ls[1] != "<< /Type /Catalog" || ls[4] != ">>" || ls[5] != "endobj" then None
    else
      match (ParseHeaderLine(ls[0]), ParseNumberLine(ls[2], "   /Outlines ", " 0 R"),
             ParseNumberLine(ls[3], "   /Pages ", " 0 R"))
      case (Some(c), Some(o), Some(p)) => Some((c, o, p))
      case _ => None
  }

  /** The catalog reads back as its own number, the outlines and the page-tree root. */
  lemma CatalogRoundTrip(catalogId: nat, outlinesId: nat, pageRootId: nat)
    ensures ParseCatalog(CatalogStr(catalogId, outlinesId, pageRootId))
         == Some((catalogId, outlinesId, pageRootId))
  {
    var ls := CatalogLines(catalogId, outlinesId, pageRootId);
    NatStrHasNo(catalogId, '\n');
    NatStrHasNo(outlinesId, '\n');
    NatStrHasNo(pageRootId, '\n');
    assert NoneContain(ls, '\n') by {
      assert '\n' !in ls[0] && '\n' !in ls[2] && '\n' !in ls[3];
    }
    SplitJoin(ls, '\n');
    ParseHeaderLineOf(catalogId);
    ParseNumberLineOf("   /Outlines ", outlinesId, " 0 R");
    ParseNumberLineOf("   /Pages ", pageRootId, " 0 R");
  }

  /** The catalog's bytes: its three numerals and 67 fixed characters. */
  lemma CatalogLength(catalogId: nat, outlinesId: nat, pageRootId: nat)
    ensures |Utf8(CatalogStr(catalogId, outlinesId, pageRootId))|
         == |NatStr(catalogId)| + |NatStr(outlinesId)| + |NatStr(pageRootId)| + 67
  {
    var ls := CatalogLines(catalogId, outlinesId, pageRootId);
    NatStrAscii(catalogId);
    NatStrAscii(outlinesId);
    NatStrAscii(pageRootId);
    AsciiConcat(NatStr(catalogId), " 0 obj");
    AsciiConcat("   /Outlines ", NatStr(outlinesId));
    AsciiConcat("   /Outlines " + NatStr(outlinesId), " 0 R");
    AsciiConcat("   /Pages ", NatStr(pageRootId));
    AsciiConcat("   /Pages " + NatStr(pageRootId), " 0 R");
    assert forall i :: 0 <= i < 6 ==> IsAscii(ls[i]);
    AsciiJoinBytes(ls);
    assert LengthSum(ls[5..]) == 6;
    assert LengthSum(ls[4..]) == 2 + LengthSum(ls[5..]);
    assert LengthSum(ls[3..]) == |ls[3]| + LengthSum(ls[4..]);
    assert LengthSum(ls[2..]) == |ls[2]| + LengthSum(ls[3..]);
    assert LengthSum(ls[1..]) == 17 + LengthSum(ls[2..]);
  }

  function OutlinesLines(outlinesId: nat): seq<string>
  {
    [ HeaderLine(outlinesId), "<< /Type /Outlines", "   /Count 0", ">>", "endobj" ]
  }

  /** `get_outlines()`: the outline tree is always empty. */
  function OutlinesStr(outlinesId: nat): string
  {
    Join(OutlinesLines(outlinesId), '\n')
  }

  function ParseOutlines(s: string): Option<nat>
  {
    var ls := Split(s, '\n');
    if |ls| != 5 || ls[1..] != ["<< /Type /Outlines", "   /Count 0", ">>", "endobj"] then None
    else ParseHeaderLine(ls[0])
  }

  /** The outlines read back as their own number, with a count of zero. */
  lemma OutlinesRoundTrip(outlinesId: nat)
    ensures ParseOutlines(OutlinesStr(outlinesId)) == Some(outlinesId)
  {
    var ls := OutlinesLines(outlinesId);
    NatStrHasNo(outlinesId, '\n');
    assert NoneContain(ls, '\n') by { assert '\n' !in ls[0]; }
    SplitJoin(ls, '\n');
    ParseHeaderLineOf(outlinesId);
  }

  /** Five ASCII lines joined by newlines: their characters and four newlines. */
  lemma FiveLinesLength(ls: seq<string>)
    requires |ls| == 5 && forall i :: 0 <= i < 5 ==> IsAscii(ls[i])
    ensures |Utf8(Join(ls, '\n'))| == |ls[0]| + |ls[1]| + |ls[2]| + |ls[3]| + |ls[4]| + 4
  {
    AsciiJoinBytes(ls);
    assert LengthSum(ls[4..]) == |ls[4]| + LengthSum(ls[5..]);
    assert LengthSum(ls[3..]) == |ls[3]| + LengthSum(ls[4..]);
    assert LengthSum(ls[2..]) == |ls[2]| + LengthSum(ls[3..]);
    assert LengthSum(ls[1..]) == |ls[1]| + LengthSum(ls[2..]);
  }

  /** The outlines' bytes: the numeral and 47 fixed characters. */
  lemma OutlinesLength(outlinesId: nat)
    ensures |Utf8(OutlinesStr(outlinesId))| == |NatStr(outlinesId)| + 47
  {
    var ls := OutlinesLines(outlinesId);
    NatStrAscii(outlinesId);
    AsciiConcat(NatStr(outlinesId), " 0 obj");
    assert forall i :: 0 <= i < 5 ==> IsAscii(ls[i]);
    FiveLinesLength(ls);
  }

  function KidsLine(pageId: nat): string
  {
    "   /Kids [" + NatStr(pageId) + " 0 R]"
  }

  function PageRootLines(rootId: nat, kids: seq<nat>): seq<string>
  {
    [ HeaderLine(rootId), "<< /Type /Pages" ]
    + RenderEach(kids, KidsLine)
    + [ "   /Count " + NatStr(|kids|), ">>", "endobj" ]
  }

  /** `get_page_root()`: one `/Kids` line per page, then `/Count`. */
  function PageRootStr(rootId: nat, kids: seq<nat>): string
  {
    Join(PageRootLines(rootId, kids), '\n')
  }

  function ParseKidsLine(l: string): Option<nat>
  {
    ParseNumberLine(l, "   /Kids [", " 0 R]")
  }

  /** Reads the page-tree root; refuses it unless `/Count` is the number of `/Kids` lines. */
  function ParsePageRoot(s: string): Option<(nat, seq<nat>)>
  {
    var ls := Split(s, '\n');
    if |ls| < 5 || ls[1] != "<< /Type /Pages" || ls[|ls| - 2..] != [">>", "endobj"] then None
    else
      match (ParseHeaderLine(ls[0]), ParseEach(ls[2..|ls| - 3], ParseKidsLine),
             ParseNumberLine(ls[|ls| - 3], "   /Count ", ""))
      case (Some(root), Some(kids), Some(count)) =>
        if count == |kids| then Some((root, kids)) else None
      case _ => None
  }

  /** The page-tree root reads back as its number and every page number in order,
      and its `/Count` agrees with the number of `/Kids` lines. */
  lemma PageRootRoundTrip(rootId: nat, kids: seq<nat>)
    ensures ParsePageRoot(PageRootStr(rootId, kids)) == Some((rootId, kids))
  {
    var mid := RenderEach(kids, KidsLine);
    var ls := PageRootLines(rootId, kids);
    PageRootOneLineEach(rootId, kids);
    SplitJoin(ls, '\n');
    assert Split(PageRootStr(rootId, kids), '\n') == ls;
    assert ls[2..|ls| - 3] == mid;
    assert ls[|ls| - 2..] == [">>", "endobj"];
    forall n: nat ensures ParseKidsLine(KidsLine(n)) == Some(n) {
      ParseNumberLineOf("   /Kids [", n, " 0 R]");
    }
    ParseEachOf(kids, KidsLine, ParseKidsLine);
    ParseHeaderLineOf(rootId);
    assert ls[|ls| - 3] == "   /Count " + NatStr(|kids|) + "";
    ParseNumberLineOf("   /Count ", |kids|, "");
  }

  lemma PageRootOneLineEach(rootId: nat, kids: seq<nat>)
    ensures NoneContain(PageRootLines(rootId, kids), '\n')
  {
    var head := [ HeaderLine(rootId), "<< /Type /Pages" ];
    var mid := RenderEach(kids, KidsLine);
    var tail := [ "   /Count " + NatStr(|kids|), ">>", "endobj" ];
    assert PageRootLines(rootId, kids) == head + mid + tail;
    NatStrHasNo(rootId, '\n');
    NatStrHasNo(|kids|, '\n');
    assert NoneContain(head, '\n') by { assert '\n' !in head[0]; }
    assert NoneContain(mid, '\n') by {
      forall i | 0 <= i < |mid| ensures '\n' !in mid[i] {
        NatStrHasNo(kids[i], '\n');
        assert mid[i] == "   /Kids [" + NatStr(kids[i]) + " 0 R]";
      }
    }
    assert NoneContain(tail, '\n') by {
      forall i | 0 <= i < 3 ensures '\n' !in tail[i] { if i == 0 {} }
    }
    NoneContainConcat(head, mid, '\n');
    NoneContainConcat(head + mid, tail, '\n');
  }

  /** With no pages there is no `/Kids` line at all. */
  lemma EmptyPageRoot(rootId: nat)
    ensures PageRootLines(rootId, []) == [HeaderLine(rootId), "<< /Type /Pages", "   /Count 0", ">>", "endobj"]
  {
    assert RenderEach([], KidsLine) == [];
    assert NatStr(0) == "0";
    assert "   /Count " + NatStr(0) == "   /Count 0";
  }

  /** With no pages the page-tree root's bytes are its numeral and 44 fixed
      characters. */
  lemma EmptyPageRootLength(rootId: nat)
    ensures |Utf8(PageRootStr(rootId, []))| == |NatStr(rootId)| + 44
  {
    var ls := PageRootLines(rootId, []);
    EmptyPageRoot(rootId);
    EmptyPageRootAscii(rootId);
    hide PageRootLines;
    FiveLinesLength(ls);
  }

  lemma EmptyPageRootAscii(rootId: nat)
    ensures |PageRootLines(rootId, [])| == 5
    ensures forall i :: 0 <= i < 5 ==> IsAscii(PageRootLines(rootId, [])[i])
  {
    var ls := PageRootLines(rootId, []);
    EmptyPageRoot(rootId);
    NatStrAscii(rootId);
    AsciiConcat(NatStr(rootId), " 0 obj");
    assert IsAscii(ls[0]);
    hide PageRootLines;
    assert forall i :: 0 <= i < 5 ==> IsAscii(ls[i]);
  }
}
