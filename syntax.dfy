/** Tokens every indirect object shares: the `<n> 0 obj` header line, the
    `<n> 0 R` reference, and readers for lines that carry one number between
    fixed text. */
module Syntax {
  import opened Strings
  import opened Unicode

  /** The first line of indirect object `n`: `<n> 0 obj`. */
  function HeaderLine(n: nat): string
  {
    NatStr(n) + " 0 obj"
  }

  /** The number a line carries between `prefix` and `suffix`. */
  function ParseNumberLine(line: string, prefix: string, suffix: string): Option<nat>
  {
    match Between(line, prefix, suffix)
    case None => None
    case Some(digits) => ParseNat(digits)
  }

  lemma ParseNumberLineOf(prefix: string, n: nat, suffix: string)
    ensures ParseNumberLine(prefix + NatStr(n) + suffix, prefix, suffix) == Some(n)
  {
    BetweenOf(prefix, NatStr(n), suffix);
    ParseNatStr(n);
  }

  function ParseHeaderLine(line: string): Option<nat>
  {
    ParseNumberLine(line, "", " 0 obj")
  }

  /** Reading a header line gives back its object number. */
  lemma ParseHeaderLineOf(n: nat)
    ensures ParseHeaderLine(HeaderLine(n)) == Some(n)
  {
    assert HeaderLine(n) == "" + NatStr(n) + " 0 obj";
    ParseNumberLineOf("", n, " 0 obj");
  }

  /** The bytes at the start of every indirect object `n`: its header line and a newline. */
  function HeaderBytes(n: nat): seq<Byte>
  {
    Utf8(HeaderLine(n) + "\n")
  }

  /** `b` opens with the header of object `n`, as a reader at that offset expects. */
  predicate StartsWithHeader(b: seq<Byte>, n: nat)
  {
    HeaderBytes(n) <= b
  }

  /** A string that opens with the header line opens, as bytes, with the header. */
  lemma HeaderOpens(n: nat, rest: string)
    ensures StartsWithHeader(Utf8(HeaderLine(n) + "\n" + rest), n)
  {
    Utf8Append(HeaderLine(n) + "\n", rest);
  }

  /** The header as bytes: the numeral's bytes, then the literal ` 0 obj` and a newline. */
  lemma HeaderBytesAre(n: nat)
    ensures HeaderBytes(n) == Utf8(NatStr(n)) + Ascii(" 0 obj\n")
  {
    assert HeaderLine(n) + "\n" == NatStr(n) + " 0 obj\n";
    Utf8ThenAscii(NatStr(n), " 0 obj\n");
  }

  /** A rendering made of lines whose first line is the header of object `n`
      opens, as bytes, with that header. */
  lemma LinesOpenWithHeader(ls: seq<string>, n: nat, more: string)
    requires |ls| >= 2 && ls[0] == HeaderLine(n)
    ensures StartsWithHeader(Utf8(Join(ls, '\n') + more), n)
  {
    JoinFirst(ls, '\n');
    assert Join(ls, '\n') + more == HeaderLine(n) + "\n" + (Join(ls[1..], '\n') + more);
    HeaderOpens(n, Join(ls[1..], '\n') + more);
  }

  /** Bytes that open with a header still do once more bytes follow. */
  lemma HeaderStaysInFront(b: seq<Byte>, rest: seq<Byte>, n: nat)
    requires StartsWithHeader(b, n)
    ensures StartsWithHeader(b + rest, n)
  {
    assert (b + rest)[..|HeaderBytes(n)|] == b[..|HeaderBytes(n)|];
  }

  /** The header's bytes: the numeral's digit codes, then a space. */
  lemma HeaderBytesAt(n: nat)
    ensures |HeaderBytes(n)| > |NatStr(n)|
    ensures forall i :: 0 <= i < |NatStr(n)| ==> HeaderBytes(n)[i] == NatStr(n)[i] as int
    ensures HeaderBytes(n)[|NatStr(n)|] == ' ' as int
  {
    HeaderBytesAre(n);
    NatStrAscii(n);
    Utf8Ascii(NatStr(n));
    assert HeaderBytes(n)[|NatStr(n)|] == Ascii(" 0 obj\n")[0];
  }

  /** At most one object header starts at any position: bytes that open with the
      header of `m` and with the header of `n` have `m == n`. */
  lemma HeadersExclusive(b: seq<Byte>, m: nat, n: nat)
    requires StartsWithHeader(b, m) && StartsWithHeader(b, n)
    ensures m == n
    decreases if |NatStr(m)| > |NatStr(n)| then 1 else 0
  {
    if |NatStr(m)| > |NatStr(n)| {
      HeadersExclusive(b, n, m);
    } else {
      var sm, sn := NatStr(m), NatStr(n);
      HeaderBytesAt(m);
      HeaderBytesAt(n);
      // A shorter numeral would put its space where the longer one has a digit.
      assert |sm| == |sn|;
      assert sm == sn by {
        forall i | 0 <= i < |sm| ensures sm[i] == sn[i] {
          assert b[i] == sm[i] as int && b[i] == sn[i] as int;
        }
      }
      ParseNatStr(m);
      ParseNatStr(n);
    }
  }

  /** Two different object numbers never have the same header. */
  lemma HeadersDiffer(m: nat, n: nat)
    requires m != n
    ensures HeaderLine(m) != HeaderLine(n)
  {
    ParseHeaderLineOf(m);
    ParseHeaderLineOf(n);
  }
}
