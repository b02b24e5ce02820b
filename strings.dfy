/** Plain-text building blocks shared by every renderer: splitting and joining
    at a separator, decimal numerals as Python's `str(int)` writes them, the
    zero-padded `'{:0=10}'` form used by the cross-reference table, and the
    prefix/suffix stripping the readers use. */
module Strings {

  datatype Option<+T> = None | Some(value: T) {
    predicate IsFailure() { None? }

    function PropagateFailure<U>(): Option<U>
      requires None?
    {
      None
    }

    function Extract(): T
      requires Some?
    {
      value
    }
  }

  // ---------------------------------------------------------------------------
  // Splitting and joining

  /** The pieces of `s` between occurrences of `sep` (like Python's `str.split(sep)`). */
  function Split(s: string, sep: char): (parts: seq<string>)
    ensures |parts| >= 1
    ensures forall i :: 0 <= i < |parts| ==> sep !in parts[i]
  {
    if s == [] then [""]
    else
      var rest := Split(s[1..], sep);
      if s[0] == sep then [""] + rest
      else [[s[0]] + rest[0]] + rest[1..]
  }

  /** The pieces of `parts` with one `sep` between neighbours (like `sep.join(parts)`). */
  function Join(parts: seq<string>, sep: char): string
  {
    if parts == [] then ""
    else if |parts| == 1 then parts[0]
    else parts[0] + [sep] + Join(parts[1..], sep)
  }

  predicate NoneContain(parts: seq<string>, c: char)
  {
    forall i :: 0 <= i < |parts| ==> c !in parts[i]
  }

  lemma NoneContainConcat(a: seq<string>, b: seq<string>, c: char)
    requires NoneContain(a, c) && NoneContain(b, c)
    ensures NoneContain(a + b, c)
  {
    forall i | 0 <= i < |a + b| ensures c !in (a + b)[i] {
      if i >= |a| { assert (a + b)[i] == b[i - |a|]; }
    }
  }

  lemma {:induction false} SplitWithout(a: string, sep: char)
    requires sep !in a
    ensures Split(a, sep) == [a]
  {
    if a != [] {
      SplitWithout(a[1..], sep);
      assert [a[0]] + a[1..] == a;
    }
  }

  lemma {:induction false} SplitAt(a: string, sep: char, b: string)
    requires sep !in a
    ensures Split(a + [sep] + b, sep) == [a] + Split(b, sep)
  {
    var s := a + [sep] + b;
    if a == [] {
      assert s[0] == sep && s[1..] == b;
    } else {
      assert s[1..] == a[1..] + [sep] + b;
      SplitAt(a[1..], sep, b);
      assert [a[0]] + a[1..] == a;
    }
  }

  /** Splitting undoes joining, when no piece contains the separator. */
  lemma {:induction false} SplitJoin(parts: seq<string>, sep: char)
    requires |parts| >= 1 && NoneContain(parts, sep)
    ensures Split(Join(parts, sep), sep) == parts
  {
    if |parts| == 1 {
      SplitWithout(parts[0], sep);
    } else {
      SplitJoin(parts[1..], sep);
      SplitAt(parts[0], sep, Join(parts[1..], sep));
      assert [parts[0]] + parts[1..] == parts;
    }
  }

  /** Joining undoes splitting: no character of `s` is lost. */
  lemma {:induction false} JoinSplit(s: string, sep: char)
    ensures Join(Split(s, sep), sep) == s
  {
    if s != [] {
      var rest := Split(s[1..], sep);
      JoinSplit(s[1..], sep);
      if s[0] == sep {
        assert [""] + rest == Split(s, sep);
        assert ([""] + rest)[1..] == rest;
      } else {
        var parts := Split(s, sep);
        assert parts == [[s[0]] + rest[0]] + rest[1..];
        if |rest| == 1 {
          assert parts == [[s[0]] + rest[0]];
          assert Join(rest, sep) == rest[0];
        } else {
          assert parts[1..] == rest[1..];
          assert Join(rest, sep) == rest[0] + [sep] + Join(rest[1..], sep);
        }
      }
    }
  }

  /** Joining a list that ends in an empty piece adds a trailing separator. */
  lemma {:induction false} JoinAppend(parts: seq<string>, more: seq<string>, sep: char)
    requires |parts| >= 1 && |more| >= 1
    ensures Join(parts + more, sep) == Join(parts, sep) + [sep] + Join(more, sep)
  {
    if |parts| == 1 {
      assert (parts + more)[1..] == more;
    } else {
      assert (parts + more)[1..] == parts[1..] + more;
      JoinAppend(parts[1..], more, sep);
    }
  }

  /** The first piece and the separator open the join. */
  lemma JoinFirst(parts: seq<string>, sep: char)
    requires |parts| >= 2
    ensures Join(parts, sep) == parts[0] + [sep] + Join(parts[1..], sep)
  {
  }

  predicate EndsWith<T(==)>(s: seq<T>, q: seq<T>)
  {
    |q| <= |s| && s[|s| - |q|..] == q
  }

  /** The join ends with the last piece. */
  lemma {:induction false} JoinLast(parts: seq<string>, sep: char)
    requires |parts| >= 1
    ensures EndsWith(Join(parts, sep), parts[|parts| - 1])
  {
    if |parts| > 1 {
      JoinLast(parts[1..], sep);
      var j := Join(parts, sep);
      var t := Join(parts[1..], sep);
      assert j == parts[0] + [sep] + t;
      assert j[|j| - |parts[|parts| - 1]|..] == t[|t| - |parts[|parts| - 1]|..];
    }
  }

  /** The number of characters in all the pieces together. */
  function LengthSum(parts: seq<string>): nat
  {
    if parts == [] then 0 else |parts[0]| + LengthSum(parts[1..])
  }

  /** A join is as long as its pieces and one separator between each two. */
  lemma {:induction false} JoinLength(parts: seq<string>, sep: char)
    requires |parts| >= 1
    ensures |Join(parts, sep)| == LengthSum(parts) + |parts| - 1
  {
    if |parts| > 1 {
      JoinLength(parts[1..], sep);
    }
  }

  /** Each piece followed by `sep`: the text a loop builds by appending one
      terminated line at a time. */
  function Terminated(parts: seq<string>, sep: char): string
  {
    if parts == [] then "" else Terminated(parts[..|parts| - 1], sep) + parts[|parts| - 1] + [sep]
  }

  /** Terminating one more piece appends it and the separator. */
  lemma TerminatedAppend(parts: seq<string>, last: string, sep: char)
    ensures Terminated(parts + [last], sep) == Terminated(parts, sep) + last + [sep]
  {
    assert (parts + [last])[..|parts|] == parts;
  }

  /** Terminating every piece is joining them with one empty piece more. */
  lemma {:induction false} TerminatedJoin(parts: seq<string>, sep: char)
    ensures Terminated(parts, sep) == Join(parts + [""], sep)
  {
    if parts != [] {
      var front := parts[..|parts| - 1];
      var last := parts[|parts| - 1];
      TerminatedJoin(front, sep);
      if front == [] {
        assert parts + [""] == [last, ""];
        assert Join([last, ""], sep) == last + [sep] + Join([""], sep);
      } else {
        assert parts + [""] == front + [last, ""];
        assert Terminated(parts, sep) == Terminated(front, sep) + last + [sep];
        assert Join([last, ""], sep) == last + [sep];
        assert Join([""], sep) == "";
        JoinAppend(front, [last, ""], sep);
        JoinAppend(front, [""], sep);
        hide Join;
        hide Terminated;
        assert Join(front, sep) + [sep] + "" + last + [sep] == Join(front, sep) + [sep] + (last + [sep]);
      }
    }
  }

  /** Terminated pieces followed by joined ones are all of them joined. */
  lemma TerminatedThenJoin(front: seq<string>, back: seq<string>, sep: char)
    requires |front| >= 1 && |back| >= 1
    ensures Terminated(front, sep) + Join(back, sep) == Join(front + back, sep)
  {
    assert Join([""], sep) == "";
    hide *;
    TerminatedJoin(front, sep);
    JoinAppend(front, [""], sep);
    JoinAppend(front, back, sep);
    var j := Join(front, sep);
    assert Terminated(front, sep) == j + [sep];
  }

  // ---------------------------------------------------------------------------
  // Prefixes and suffixes

  function StripPrefix<T(==)>(s: seq<T>, p: seq<T>): (r: Option<seq<T>>)
    ensures r.Some? ==> s == p + r.value
  {
    if |p| <= |s| && s[..|p|] == p then
      assert s == s[..|p|] + s[|p|..];
      Some(s[|p|..])
    else None
  }

  function StripSuffix<T(==)>(s: seq<T>, q: seq<T>): (r: Option<seq<T>>)
    ensures r.Some? ==> s == r.value + q
  {
    if |q| <= |s| && s[|s| - |q|..] == q then
      assert s == s[..|s| - |q|] + s[|s| - |q|..];
      Some(s[..|s| - |q|])
    else None
  }

  lemma StripPrefixOf<T>(p: seq<T>, x: seq<T>)
    ensures StripPrefix(p + x, p) == Some(x)
  {
    assert (p + x)[..|p|] == p;
    assert (p + x)[|p|..] == x;
  }

  lemma StripSuffixOf<T>(x: seq<T>, q: seq<T>)
    ensures StripSuffix(x + q, q) == Some(x)
  {
    assert (x + q)[|x|..] == q;
    assert (x + q)[..|x|] == x;
  }

  /** The text between a fixed prefix and a fixed suffix. */
  function Between(s: string, p: string, q: string): (r: Option<string>)
    ensures r.Some? ==> s == p + r.value + q
  {
    match StripPrefix(s, p)
    case None => None
    case Some(rest) => StripSuffix(rest, q)
  }

  lemma BetweenOf(p: string, x: string, q: string)
    ensures Between(p + x + q, p, q) == Some(x)
  {
    assert p + x + q == p + (x + q);
    StripPrefixOf(p, x + q);
    StripSuffixOf(x, q);
  }

  // ---------------------------------------------------------------------------
  // Decimal numerals

  predicate IsDigit(c: char) { '0' <= c <= '9' }

  predicate IsDigits(s: string) { forall i :: 0 <= i < |s| ==> IsDigit(s[i]) }

  function DigitChar(d: nat): (c: char)
    requires d < 10
    ensures IsDigit(c) && c as int - '0' as int == d
  {
    ('0' as int + d) as char
  }

  /** The decimal numeral of `n`, as Python's `str(n)` writes a non-negative int. */
  function NatStr(n: nat): (s: string)
    ensures |s| >= 1 && IsDigits(s)
  {
    if n < 10 then [DigitChar(n)] else NatStr(n / 10) + [DigitChar(n % 10)]
  }

  /** The number a string of decimal digits denotes (leading zeros allowed). */
  function DigitsValue(s: string): nat
    requires IsDigits(s)
  {
    if s == [] then 0
    else DigitsValue(s[..|s| - 1]) * 10 + (s[|s| - 1] as int - '0' as int)
  }

  /** Reads a decimal numeral; anything that is not one is refused. */
  function ParseNat(s: string): (r: Option<nat>)
    ensures r.Some? <==> s != [] && IsDigits(s)
  {
    if s != [] && IsDigits(s) then Some(DigitsValue(s)) else None
  }

  /** Reading a numeral back gives the number written. */
  lemma {:induction false} ParseNatStr(n: nat)
    ensures ParseNat(NatStr(n)) == Some(n)
  {
    if n >= 10 {
      ParseNatStr(n / 10);
      var s := NatStr(n);
      assert s[..|s| - 1] == NatStr(n / 10);
      assert DigitsValue(s) == DigitsValue(NatStr(n / 10)) * 10 + n % 10;
    } else {
      var s := NatStr(n);
      assert s == [DigitChar(n)] && s[..0] == [];
      assert DigitsValue(s) == n;
    }
  }

  /** A numeral never contains a space, a newline or any other non-digit. */
  lemma NatStrHasNo(n: nat, c: char)
    requires !IsDigit(c)
    ensures c !in NatStr(n)
  {
  }

  /** Reads two numerals separated by one space. */
  function ParsePair(s: string): Option<(nat, nat)>
  {
    var p := Split(s, ' ');
    if |p| != 2 then None
    else
      match (ParseNat(p[0]), ParseNat(p[1]))
      case (Some(a), Some(b)) => Some((a, b))
      case _ => None
  }

  lemma ParsePairOf(a: nat, b: nat)
    ensures ParsePair(NatStr(a) + " " + NatStr(b)) == Some((a, b))
  {
    NatStrHasNo(a, ' ');
    NatStrHasNo(b, ' ');
    SplitJoin([NatStr(a), NatStr(b)], ' ');
    ParseNatStr(a);
    ParseNatStr(b);
  }

  /** Reads every line with `parse`, refusing the whole list if one line is refused. */
  function ParseEach(lines: seq<string>, parse: string -> Option<nat>): (r: Option<seq<nat>>)
    ensures r.Some? ==> |r.value| == |lines|
  {
    if lines == [] then Some([])
    else
      match (parse(lines[0]), ParseEach(lines[1..], parse))
      case (Some(n), Some(rest)) => Some([n] + rest)
      case _ => None
  }

  function RenderEach(ns: seq<nat>, render: nat -> string): (r: seq<string>)
    ensures |r| == |ns|
    ensures forall i :: 0 <= i < |ns| ==> r[i] == render(ns[i])
  {
    if ns == [] then [] else [render(ns[0])] + RenderEach(ns[1..], render)
  }

  /** Rendering one more number renders one more line. */
  lemma RenderEachAppend(ns: seq<nat>, n: nat, render: nat -> string)
    ensures RenderEach(ns + [n], render) == RenderEach(ns, render) + [render(n)]
  {
    var l := RenderEach(ns + [n], render);
    var r := RenderEach(ns, render) + [render(n)];
    assert |l| == |r|;
    forall i | 0 <= i < |l| ensures l[i] == r[i] {
      assert (ns + [n])[i] == if i < |ns| then ns[i] else n;
    }
  }

  /** A line reader that inverts a line writer inverts it on a whole list. */
  lemma {:induction false} ParseEachOf(ns: seq<nat>, render: nat -> string, parse: string -> Option<nat>)
    requires forall n: nat :: parse(render(n)) == Some(n)
    ensures ParseEach(RenderEach(ns, render), parse) == Some(ns)
  {
    if ns != [] {
      var ls := RenderEach(ns, render);
      assert ls[1..] == RenderEach(ns[1..], render);
      ParseEachOf(ns[1..], render, parse);
      assert [ns[0]] + ns[1..] == ns;
    }
  }

  function Pow10(k: nat): (p: nat)
    ensures p >= 1
  {
    if k == 0 then 1 else 10 * Pow10(k - 1)
  }

  /** A numeral of `n` has at most `k` digits exactly when `n < 10^k`. */
  lemma {:induction false} NatStrLength(n: nat, k: nat)
    requires k >= 1
    ensures |NatStr(n)| <= k <==> n < Pow10(k)
  {
    if n >= 10 {
      if k >= 2 {
        NatStrLength(n / 10, k - 1);
      } else {
        assert |NatStr(n)| == |NatStr(n / 10)| + 1;
      }
    } else if k >= 2 {
      assert Pow10(k) == 10 * Pow10(k - 1);
    }
  }

  function Zeros(k: nat): (z: string)
    ensures |z| == k && IsDigits(z)
  {
    if k == 0 then "" else Zeros(k - 1) + "0"
  }

  /** `'{:0=10}'.format(n)` for a non-negative n: zero-filled to ten digits, never cut. */
  function Pad10(n: nat): string
  {
    var s := NatStr(n);
    if |s| < 10 then Zeros(10 - |s|) + s else s
  }

  lemma {:induction false} LeadingZerosValue(k: nat, s: string)
    requires IsDigits(s)
    ensures IsDigits(Zeros(k) + s) && DigitsValue(Zeros(k) + s) == DigitsValue(s)
  {
    if s == [] {
      ZerosValue(k);
      assert Zeros(k) + s == Zeros(k);
    } else {
      var t := Zeros(k) + s;
      assert t[..|t| - 1] == Zeros(k) + s[..|s| - 1];
      LeadingZerosValue(k, s[..|s| - 1]);
    }
  }

  lemma {:induction false} ZerosValue(k: nat)
    ensures DigitsValue(Zeros(k)) == 0
  {
    if k > 0 {
      var z := Zeros(k);
      assert z[..|z| - 1] == Zeros(k - 1);
      ZerosValue(k - 1);
    }
  }

  /** The padded form is a numeral of the same number, at least ten digits long,
      and exactly ten digits for every number below 10^10. */
  lemma Pad10Reads(n: nat)
    ensures IsDigits(Pad10(n)) && ParseNat(Pad10(n)) == Some(n)
    ensures |Pad10(n)| >= 10
    ensures |Pad10(n)| == 10 <==> n < Pow10(10)
  {
    ParseNatStr(n);
    var s := NatStr(n);
    if |s| < 10 {
      LeadingZerosValue(10 - |s|, s);
    }
    NatStrLength(n, 10);
  }
}
