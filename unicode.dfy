/** Bytes and the two character encodings the serializer uses: UTF-8, which is
    what Python's `str.encode()` produces for every string written into the file,
    and UTF-16 big-endian, which the metadata strings use. */
module Unicode {
  import opened Strings

  type Byte = b: int | 0 <= b < 256

  predicate IsAscii(s: string)
  {
    forall i :: 0 <= i < |s| ==> s[i] as int < 128
  }

  // ---------------------------------------------------------------------------
  // UTF-8

  /** The UTF-8 form of one Unicode scalar value (one to four bytes). */
  function Utf8Char(c: char): (r: seq<Byte>)
    ensures 1 <= |r| <= 4
    ensures |r| == 1 <==> c as int < 0x80
  {
    var v := c as int;
    if v < 0x80 then [v]
    else if v < 0x800 then [0xC0 + v / 0x40, 0x80 + v % 0x40]
    else if v < 0x10000 then [0xE0 + v / 0x1000, 0x80 + (v / 0x40) % 0x40, 0x80 + v % 0x40]
    else [0xF0 + v / 0x40000, 0x80 + (v / 0x1000) % 0x40, 0x80 + (v / 0x40) % 0x40, 0x80 + v % 0x40]
  }

  /** `s.encode()`: the UTF-8 bytes of `s`, never shorter than `s`, and exactly as
      long as `s` precisely when `s` is ASCII. */
  function Utf8(s: string): (r: seq<Byte>)
    ensures |r| >= |s|
    ensures |r| == |s| <==> IsAscii(s)
  {
    if s == [] then []
    else
      assert IsAscii(s) <==> s[0] as int < 0x80 && IsAscii(s[1..]) by {
        if s[0] as int < 0x80 && IsAscii(s[1..]) {
          forall i | 0 <= i < |s| ensures s[i] as int < 128 {
            if i > 0 { assert s[i] == s[1..][i - 1]; }
          }
        }
      }
      Utf8Char(s[0]) + Utf8(s[1..])
  }

  lemma {:induction false} Utf8Append(a: string, b: string)
    ensures Utf8(a + b) == Utf8(a) + Utf8(b)
  {
    hide IsAscii;
    if a != [] {
      var c, rest := a[0], a[1..];
      assert (a + b)[0] == c && (a + b)[1..] == rest + b;
      assert Utf8(a + b) == Utf8Char(c) + Utf8(rest + b);
      assert Utf8(a) == Utf8Char(c) + Utf8(rest);
      Utf8Append(rest, b);
      hide Utf8;
      assert Utf8Char(c) + (Utf8(rest) + Utf8(b)) == Utf8Char(c) + Utf8(rest) + Utf8(b);
    } else {
      assert a + b == b;
    }
  }

  /** On ASCII text the encoding is the identity on character codes. */
  lemma {:induction false} Utf8Ascii(s: string)
    requires IsAscii(s)
    ensures |Utf8(s)| == |s|
    ensures forall i :: 0 <= i < |s| ==> Utf8(s)[i] == s[i] as int
  {
    if s != [] {
      assert IsAscii(s[1..]) by {
        forall i | 0 <= i < |s| - 1 ensures s[1..][i] as int < 128 { assert s[1..][i] == s[i + 1]; }
      }
      Utf8Ascii(s[1..]);
      forall i | 0 <= i < |s| ensures Utf8(s)[i] == s[i] as int {
        if i > 0 { assert Utf8(s)[i] == Utf8(s[1..])[i - 1]; }
      }
    }
  }

  /** A Python bytes literal such as `b' 0 obj\n'`: the codes of its ASCII characters. */
  function Ascii(s: string): (r: seq<Byte>)
    requires IsAscii(s)
    ensures |r| == |s|
    ensures forall i :: 0 <= i < |s| ==> r[i] == s[i] as int
  {
    seq(|s|, i requires 0 <= i < |s| => s[i] as int)
  }

  /** Encoding ASCII text as UTF-8 writes exactly its bytes literal. */
  lemma Utf8IsAscii(s: string)
    requires IsAscii(s)
    ensures Utf8(s) == Ascii(s)
  {
    Utf8Ascii(s);
  }

  /** Encoding text followed by an ASCII literal writes the literal's bytes last. */
  lemma Utf8ThenAscii(a: string, t: string)
    requires IsAscii(t)
    ensures Utf8(a + t) == Utf8(a) + Ascii(t)
  {
    Utf8Append(a, t);
    Utf8IsAscii(t);
  }

  /** Numerals are ASCII. */
  lemma NatStrAscii(n: nat)
    ensures IsAscii(NatStr(n))
  {
  }

  lemma DigitsAscii(s: string)
    requires IsDigits(s)
    ensures IsAscii(s)
  {
  }

  lemma AsciiConcat(a: string, b: string)
    requires IsAscii(a) && IsAscii(b)
    ensures IsAscii(a + b)
  {
    forall i | 0 <= i < |a + b| ensures (a + b)[i] as int < 128 {
      if i >= |a| { assert (a + b)[i] == b[i - |a|]; }
    }
  }

  /** A join of ASCII lines is ASCII. */
  lemma {:induction false} AsciiLines(ls: seq<string>)
    requires forall i :: 0 <= i < |ls| ==> IsAscii(ls[i])
    ensures IsAscii(Join(ls, '\n'))
  {
    if |ls| > 1 {
      AsciiLines(ls[1..]);
      var j := Join(ls, '\n');
      assert j == ls[0] + "\n" + Join(ls[1..], '\n');
      forall i | 0 <= i < |j| ensures j[i] as int < 128 {
        if i < |ls[0]| { assert j[i] == ls[0][i]; }
        else if i > |ls[0]| { assert j[i] == Join(ls[1..], '\n')[i - |ls[0]| - 1]; }
      }
    }
  }

  /** Lines of ASCII text joined by newlines take one byte per character. */
  lemma AsciiJoinBytes(ls: seq<string>)
    requires |ls| >= 1
    requires forall i :: 0 <= i < |ls| ==> IsAscii(ls[i])
    ensures |Utf8(Join(ls, '\n'))| == LengthSum(ls) + |ls| - 1
  {
    AsciiLines(ls);
    JoinLength(ls, '\n');
  }

  /** Reads bytes below 128 back as characters. */
  function AsciiDecode(b: seq<Byte>): (s: string)
    ensures |s| == |b|
    ensures forall i :: 0 <= i < |b| && b[i] < 128 ==> s[i] as int == b[i]
  {
    if b == [] then ""
    else [if b[0] < 128 then b[0] as char else '?'] + AsciiDecode(b[1..])
  }

  /** Decoding the encoding of ASCII text gives the text back. */
  lemma AsciiRoundTrip(s: string)
    requires IsAscii(s)
    ensures AsciiDecode(Utf8(s)) == s
  {
    Utf8Ascii(s);
    var d := AsciiDecode(Utf8(s));
    assert forall i :: 0 <= i < |s| ==> d[i] == s[i];
  }

  /** A byte that continues a multi-byte UTF-8 sequence. */
  predicate IsContinuation(b: Byte)
  {
    0x80 <= b < 0xC0
  }

  /** Reads one UTF-8 sequence off the front of `b`: the character and the number
      of bytes it took; `None` for a stray continuation byte, a truncated
      sequence, an overlong form, a surrogate or a value above U+10FFFF. What it
      accepts is always the shortest form of the character it reads. */
  function DecodeUtf8Char(b: seq<Byte>): (r: Option<(char, nat)>)
    requires b != []
    ensures r.Some? ==> 1 <= r.value.1 <= |b|
    ensures r.Some? ==> r.value.1 == |Utf8Char(r.value.0)|
  {
    var b0 := b[0] as int;
    if b0 < 0x80 then Some((b0 as char, 1))
    else if b0 < 0xC0 then None
    else if b0 < 0xE0 then
      if |b| < 2 || !IsContinuation(b[1]) then None
      else
        var v := (b0 - 0xC0) * 0x40 + (b[1] as int - 0x80);
        if v < 0x80 then None else Some((v as char, 2))
    else if b0 < 0xF0 then
      if |b| < 3 || !IsContinuation(b[1]) || !IsContinuation(b[2]) then None
      else
        var v := (b0 - 0xE0) * 0x1000 + (b[1] as int - 0x80) * 0x40 + (b[2] as int - 0x80);
        if v < 0x800 || 0xD800 <= v < 0xE000 then None else Some((v as char, 3))
    else if b0 < 0xF8 then
      if |b| < 4 || !IsContinuation(b[1]) || !IsContinuation(b[2]) || !IsContinuation(b[3]) then None
      else
        var v := (b0 - 0xF0) * 0x40000 + (b[1] as int - 0x80) * 0x1000 + (b[2] as int - 0x80) * 0x40
          + (b[3] as int - 0x80);
        if v < 0x10000 || v >= 0x110000 then None else Some((v as char, 4))
    else None
  }

  /** `b.decode()`: a reader for UTF-8 that refuses malformed input (stray or
      missing continuation bytes, overlong forms, surrogates, values above
      U+10FFFF). */
  function DecodeUtf8(b: seq<Byte>): Option<string>
    decreases |b|
  {
    if b == [] then Some("")
    else
      match DecodeUtf8Char(b)
      case None => None
      case Some((c, n)) =>
        match DecodeUtf8(b[n..])
        case None => None
        case Some(s) => Some([c] + s)
  }

  /** The sequence `Utf8Char` writes for a character reads back as that character. */
  lemma DecodeUtf8CharOf(c: char, rest: seq<Byte>)
    ensures DecodeUtf8Char(Utf8Char(c) + rest) == Some((c, |Utf8Char(c)|))
  {
    var v := c as int;
    var b := Utf8Char(c) + rest;
    if v < 0x80 {
    } else if v < 0x800 {
      TwoBytesOf(v);
      assert b[0] == 0xC0 + v / 0x40 && b[1] == 0x80 + v % 0x40;
    } else if v < 0x10000 {
      ThreeBytesOf(v);
      assert b[0] == 0xE0 + v / 0x1000 && b[1] == 0x80 + (v / 0x40) % 0x40 && b[2] == 0x80 + v % 0x40;
    } else {
      FourBytesOf(v);
      assert b[0] == 0xF0 + v / 0x40000 && b[1] == 0x80 + (v / 0x1000) % 0x40;
      assert b[2] == 0x80 + (v / 0x40) % 0x40 && b[3] == 0x80 + v % 0x40;
    }
  }

  /** The two bytes written for `v` are a lead and a continuation that recombine to `v`. */
  lemma TwoBytesOf(v: int)
    requires 0x80 <= v < 0x800
    ensures 0xC0 <= 0xC0 + v / 0x40 < 0xE0
    ensures ((0xC0 + v / 0x40) - 0xC0) * 0x40 + ((0x80 + v % 0x40) - 0x80) == v
  {
  }

  lemma ThreeBytesOf(v: int)
    requires 0x800 <= v < 0x10000
    ensures 0xE0 <= 0xE0 + v / 0x1000 < 0xF0
    ensures (v / 0x1000) * 0x1000 + ((v / 0x40) % 0x40) * 0x40 + v % 0x40 == v
  {
    TwelveBits(v);
    var q := v / 0x40;
    assert q * 0x40 + v % 0x40 == v;
    assert (q / 0x40) * 0x40 + q % 0x40 == q;
  }

  lemma FourBytesOf(v: int)
    requires 0x10000 <= v < 0x110000
    ensures 0xF0 <= 0xF0 + v / 0x40000 < 0xF8
    ensures (v / 0x40000) * 0x40000 + ((v / 0x1000) % 0x40) * 0x1000 + ((v / 0x40) % 0x40) * 0x40 + v % 0x40 == v
  {
    TwelveBits(v);
    TwelveBits(v / 0x40);
    var q := v / 0x40;
    var p := q / 0x40;
    assert q * 0x40 + v % 0x40 == v;
    assert p * 0x40 + q % 0x40 == q;
    assert (p / 0x40) * 0x40 + p % 0x40 == p;
    assert p / 0x40 == v / 0x40000;
  }

  /** Decoding the UTF-8 encoding of any text gives the text back. */
  lemma {:induction false} Utf8RoundTrip(s: string)
    ensures DecodeUtf8(Utf8(s)) == Some(s)
  {
    if s != [] {
      var head := Utf8Char(s[0]);
      assert Utf8(s) == head + Utf8(s[1..]);
      DecodeUtf8CharOf(s[0], Utf8(s[1..]));
      assert Utf8(s)[|head|..] == Utf8(s[1..]);
      Utf8RoundTrip(s[1..]);
      assert [s[0]] + s[1..] == s;
    }
  }

  /** Splitting `q * 64 + r` into a continuation's six bits gives back `q` and `r`. */
  lemma SixBits(q: int, r: int)
    requires 0 <= q && 0 <= r < 0x40
    ensures (q * 0x40 + r) / 0x40 == q && (q * 0x40 + r) % 0x40 == r
  {
  }

  /** Whatever one-character sequence the reader accepts is exactly what
      `Utf8Char` writes for the character it returns. */
  lemma DecodeUtf8CharExact(b: seq<Byte>)
    requires b != [] && DecodeUtf8Char(b).Some?
    ensures Utf8Char(DecodeUtf8Char(b).value.0) == b[..DecodeUtf8Char(b).value.1]
  {
    var b0 := b[0] as int;
    if 0xC0 <= b0 < 0xE0 {
      TwoBytesExact(b0, b[1]);
    } else if 0xE0 <= b0 < 0xF0 {
      ThreeBytesExact(b0, b[1], b[2]);
    } else if 0xF0 <= b0 {
      FourBytesExact(b0, b[1], b[2], b[3]);
    }
  }

  lemma TwoBytesExact(b0: Byte, b1: Byte)
    requires 0xC0 <= b0 < 0xE0 && IsContinuation(b1)
    requires 0x80 <= (b0 - 0xC0) * 0x40 + (b1 - 0x80)
    ensures Utf8Char(((b0 - 0xC0) * 0x40 + (b1 - 0x80)) as char) == [b0, b1]
  {
    SixBits(b0 - 0xC0, b1 - 0x80);
  }

  lemma ThreeBytesExact(b0: Byte, b1: Byte, b2: Byte)
    requires 0xE0 <= b0 < 0xF0 && IsContinuation(b1) && IsContinuation(b2)
    requires var v := (b0 - 0xE0) * 0x1000 + (b1 - 0x80) * 0x40 + (b2 - 0x80);
      0x800 <= v && !(0xD800 <= v < 0xE000)
    ensures Utf8Char(((b0 - 0xE0) * 0x1000 + (b1 - 0x80) * 0x40 + (b2 - 0x80)) as char) == [b0, b1, b2]
  {
    var q := (b0 - 0xE0) * 0x40 + (b1 - 0x80);
    var v := q * 0x40 + (b2 - 0x80);
    SixBits(q, b2 - 0x80);
    SixBits(b0 - 0xE0, b1 - 0x80);
    TwelveBits(v);
    assert v / 0x1000 == b0 - 0xE0 && (v / 0x40) % 0x40 == b1 - 0x80 && v % 0x40 == b2 - 0x80;
  }

  lemma FourBytesExact(b0: Byte, b1: Byte, b2: Byte, b3: Byte)
    requires 0xF0 <= b0 < 0xF8 && IsContinuation(b1) && IsContinuation(b2) && IsContinuation(b3)
    requires var v := (b0 - 0xF0) * 0x40000 + (b1 - 0x80) * 0x1000 + (b2 - 0x80) * 0x40 + (b3 - 0x80);
      0x10000 <= v < 0x110000
    ensures Utf8Char(((b0 - 0xF0) * 0x40000 + (b1 - 0x80) * 0x1000 + (b2 - 0x80) * 0x40 + (b3 - 0x80)) as char)
         == [b0, b1, b2, b3]
  {
    var p := (b0 - 0xF0) * 0x40 + (b1 - 0x80);
    var q := p * 0x40 + (b2 - 0x80);
    var v := q * 0x40 + (b3 - 0x80);
    SixBits(q, b3 - 0x80);
    SixBits(p, b2 - 0x80);
    SixBits(b0 - 0xF0, b1 - 0x80);
    TwelveBits(v);
    TwelveBits(v / 0x40);
    assert v / 0x40000 == b0 - 0xF0 && (v / 0x1000) % 0x40 == b1 - 0x80;
    assert (v / 0x40) % 0x40 == b2 - 0x80 && v % 0x40 == b3 - 0x80;
  }

  /** Dropping twelve bits is dropping six bits twice. */
  lemma TwelveBits(v: int)
    requires 0 <= v
    ensures v / 0x1000 == (v / 0x40) / 0x40
  {
    var q, r := v / 0x40, v % 0x40;
    var q2, r2 := q / 0x40, q % 0x40;
    assert v == q2 * 0x1000 + (r2 * 0x40 + r);
  }

  /** The reader accepts exactly the encoder's output: bytes it decodes to a
      string are the UTF-8 encoding of that string. */
  lemma {:induction false} DecodeUtf8Exact(b: seq<Byte>)
    requires DecodeUtf8(b).Some?
    ensures Utf8(DecodeUtf8(b).value) == b
    decreases |b|
  {
    hide DecodeUtf8, DecodeUtf8Char, Utf8, Utf8Char, IsAscii;
    if b == [] {
      EmptyDecodes();
    } else {
      DecodeUtf8Step(b);
      var c, n := DecodeUtf8Char(b).value.0, DecodeUtf8Char(b).value.1;
      var tail := DecodeUtf8(b[n..]).value;
      DecodeUtf8CharExact(b);
      DecodeUtf8Exact(b[n..]);
      Utf8Cons(c, tail);
      assert b == b[..n] + b[n..];
    }
  }

  lemma EmptyDecodes()
    ensures DecodeUtf8([]) == Some("") && Utf8("") == []
  {
  }

  /** A successful read of non-empty bytes is one character and a successful
      read of the rest. */
  lemma DecodeUtf8Step(b: seq<Byte>)
    requires b != [] && DecodeUtf8(b).Some?
    ensures DecodeUtf8Char(b).Some?
    ensures DecodeUtf8(b[DecodeUtf8Char(b).value.1..]).Some?
    ensures DecodeUtf8(b).value == [DecodeUtf8Char(b).value.0] + DecodeUtf8(b[DecodeUtf8Char(b).value.1..]).value
  {
  }

  lemma Utf8Cons(c: char, s: string)
    ensures Utf8([c] + s) == Utf8Char(c) + Utf8(s)
  {
    assert ([c] + s)[0] == c && ([c] + s)[1..] == s;
  }

  // ---------------------------------------------------------------------------
  // UTF-16 big-endian

  predicate IsBmp(s: string)
  {
    forall i :: 0 <= i < |s| ==> s[i] as int < 0x10000
  }

  /** The UTF-16 code units of one scalar value: one unit in the Basic
      Multilingual Plane, a surrogate pair above it. */
  function Utf16Units(c: char): (u: seq<nat>)
    ensures |u| == 1 <==> c as int < 0x10000
    ensures 1 <= |u| <= 2
    ensures forall i :: 0 <= i < |u| ==> u[i] < 0x10000
  {
    var v := c as int;
    if v < 0x10000 then [v]
    else [0xD800 + (v - 0x10000) / 0x400, 0xDC00 + (v - 0x10000) % 0x400]
  }

  function UnitBytes(u: seq<nat>): (r: seq<Byte>)
    requires forall i :: 0 <= i < |u| ==> u[i] < 0x10000
    ensures |r| == 2 * |u|
  {
    if u == [] then [] else [u[0] / 0x100, u[0] % 0x100] + UnitBytes(u[1..])
  }

  /** `s.encode("utf-16-be")`: two bytes per unit, high byte first, no byte-order mark. */
  function Utf16Be(s: string): (r: seq<Byte>)
    ensures |r| >= 2 * |s|
    ensures IsBmp(s) ==> |r| == 2 * |s|
    ensures !IsBmp(s) ==> |r| > 2 * |s|
  {
    if s == [] then []
    else
      assert IsBmp(s) <==> s[0] as int < 0x10000 && IsBmp(s[1..]) by {
        if s[0] as int < 0x10000 && IsBmp(s[1..]) {
          forall i | 0 <= i < |s| ensures s[i] as int < 0x10000 {
            if i > 0 { assert s[i] == s[1..][i - 1]; }
          }
        }
      }
      UnitBytes(Utf16Units(s[0])) + Utf16Be(s[1..])
  }

  /** The code unit a high byte and a low byte stand for. */
  function Unit(hi: Byte, lo: Byte): nat
  {
    hi as int * 0x100 + lo as int
  }

  /** A reader for UTF-16BE: recombines surrogate pairs and refuses an odd byte,
      a lone surrogate or a pair in the wrong order. */
  function DecodeUtf16Be(b: seq<Byte>): Option<string>
    decreases |b|
  {
    if b == [] then Some("")
    else if |b| < 2 then None
    else
      var u := Unit(b[0], b[1]);
      if 0xDC00 <= u < 0xE000 then None
      else if 0xD800 <= u < 0xDC00 then
        if |b| < 4 then None
        else
          var w := Unit(b[2], b[3]);
          if !(0xDC00 <= w < 0xE000) then None
          else
            match DecodeUtf16Be(b[4..])
            case None => None
            case Some(rest) =>
              Some([(0x10000 + (u - 0xD800) * 0x400 + (w - 0xDC00)) as char] + rest)
      else
        match DecodeUtf16Be(b[2..])
        case None => None
        case Some(rest) => Some([u as char] + rest)
  }

  function Prepend(c: char, r: Option<string>): Option<string>
  {
    match r
    case None => None
    case Some(rest) => Some([c] + rest)
  }

  /** Decoding consumes exactly the units of the first character. */
  lemma DecodeUtf16Step(c: char, rest: seq<Byte>)
    ensures DecodeUtf16Be(UnitBytes(Utf16Units(c)) + rest) == Prepend(c, DecodeUtf16Be(rest))
  {
    var u := Utf16Units(c);
    var b := UnitBytes(u) + rest;
    var v := c as int;
    if v < 0x10000 {
      assert UnitBytes(u) == [u[0] / 0x100, u[0] % 0x100];
      assert Unit(b[0], b[1]) == v;
      assert b[2..] == rest;
    } else {
      assert UnitBytes(u) == [u[0] / 0x100, u[0] % 0x100, u[1] / 0x100, u[1] % 0x100] by {
        assert UnitBytes(u) == [u[0] / 0x100, u[0] % 0x100] + UnitBytes(u[1..]);
        assert UnitBytes(u[1..]) == [u[1] / 0x100, u[1] % 0x100] + UnitBytes([]);
      }
      var hi := 0xD800 + (v - 0x10000) / 0x400;
      var lo := 0xDC00 + (v - 0x10000) % 0x400;
      assert Unit(b[0], b[1]) == hi;
      assert Unit(b[2], b[3]) == lo;
      assert 0x10000 + (hi - 0xD800) * 0x400 + (lo - 0xDC00) == v;
      assert b[4..] == rest;
    }
  }

  /** Decoding the UTF-16BE encoding of any string gives the string back. */
  lemma {:induction false} Utf16RoundTrip(s: string)
    ensures DecodeUtf16Be(Utf16Be(s)) == Some(s)
  {
    if s != [] {
      DecodeUtf16Step(s[0], Utf16Be(s[1..]));
      Utf16RoundTrip(s[1..]);
      assert [s[0]] + s[1..] == s;
    }
  }
}
