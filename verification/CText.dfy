/**
  The parts of the C text library the parsers rest on, in the C locale: character
  classes, strtoul and sscanf. A C string is a `string` without its NUL.
 */
module CText {
  import opened Wrappers

  const U32: nat := 0x1_0000_0000
  const U64: nat := 0x1_0000_0000_0000_0000

  type u32 = n: nat | n < 0x1_0000_0000

  // A 32-bit flag word as the set of its one bits; | is union.
  type Word = set<nat>

  // isspace: tab, newline, vertical tab, form feed, carriage return and blank.
  predicate IsSpace(c: char) {
    c == ' ' || (9 as char) <= c <= (13 as char)
  }

  // isprint: the 95 characters from blank to tilde.
  predicate IsPrint(c: char) {
    ' ' <= c <= '~'
  }

  function ToLower(c: char): char {
    if 'A' <= c <= 'Z' then ((c as int) + 32) as char else c
  }

  predicate IsDigit(c: char, base: nat) {
    || '0' <= c <= '9'
    || (base == 16 && ('a' <= c <= 'f' || 'A' <= c <= 'F'))
  }

  function DigitValue(c: char): nat {
    if '0' <= c <= '9' then c as int - '0' as int
    else if 'A' <= c <= 'F' then c as int - 'A' as int + 10
    else if 'a' <= c <= 'f' then c as int - 'a' as int + 10
    else 0
  }

  predicate AllDigits(s: string, base: nat) {
    forall i :: 0 <= i < |s| ==> IsDigit(s[i], base)
  }

  // The number written by a digit string, most significant digit first.
  function Value(s: string, base: nat): nat {
    if s == [] then 0
    else Value(s[..|s| - 1], base) * base + DigitValue(s[|s| - 1])
  }

  // What snprintf keeps when there is room for n characters before the terminator.
  function Cut(s: string, n: nat): (r: string)
    ensures r <= s && |r| == if |s| < n then |s| else n
  {
    if |s| < n then s else s[..n]
  }

  // What printf("%u") writes.
  function Decimal(n: nat): (s: string)
    ensures s != [] && AllDigits(s, 10) && Value(s, 10) == n
  {
    var last := [(n % 10 + '0' as int) as char];
    if n < 10 then assert last[..0] == []; last
    else
      var front := Decimal(n / 10);
      assert (front + last)[..|front + last| - 1] == front;
      front + last
  }

  function SkipSpace(s: string): (r: string)
    ensures |r| <= |s|
  {
    if s != [] && IsSpace(s[0]) then SkipSpace(s[1..]) else s
  }

  // The length of the longest prefix of digits.
  function DigitRun(s: string, base: nat): (n: nat)
    ensures n <= |s|
  {
    if s == [] || !IsDigit(s[0], base) then 0 else 1 + DigitRun(s[1..], base)
  }

  datatype Number = Number(value: nat, rest: string)

  // The unsigned-long reading of digits: saturated, then negated after a minus sign.
  function Unsigned(negative: bool, magnitude: nat): (v: nat)
    ensures v < U64
  {
    if magnitude >= U64 then U64 - 1
    else if negative then (U64 - magnitude) % U64
    else magnitude
  }

  /** One number as strtoul and the scanf conversions read it: leading white space, an
      optional sign, for base 16 an optional 0x, then digits. glibc lets the digits
      after 0x be missing. */
  function ScanNumber(s: string, base: nat): (r: Option<Number>)
    requires base == 10 || base == 16
    ensures r.Some? ==> |r.value.rest| < |s| && r.value.value < U64
  {
    var t := SkipSpace(s);
    var negative := t != [] && t[0] == '-';
    var u := if t != [] && (t[0] == '-' || t[0] == '+') then t[1..] else t;
    var prefixed := base == 16 && |u| >= 2 && u[0] == '0' && (u[1] == 'x' || u[1] == 'X');
    var d := if prefixed then u[2..] else u;
    var n := DigitRun(d, base);
    if n == 0 && !prefixed then None
    else Some(Number(Unsigned(negative, Value(d[..n], base)), d[n..]))
  }

  // strtoul(s, &end, 10): nothing converted means value 0 and end == s.
  function Strtoul(s: string): (r: Number)
    ensures |r.rest| <= |s|
  {
    match ScanNumber(s, 10)
    case None => Number(0, s)
    case Some(n) => n
  }

  // What is left after the comma and one optional blank between two items of a list.
  function AfterComma(s: string): (r: string)
    requires s != [] && s[0] == ','
    ensures |r| < |s|
  {
    if |s| > 1 && s[1] == ' ' then s[2..] else s[1..]
  }

  datatype Directive = Literal(c: char) | Unsigned32(base: nat)

  predicate WellFormed(format: seq<Directive>) {
    forall i :: 0 <= i < |format| && format[i].Unsigned32? ==> format[i].base == 10 || format[i].base == 16
  }

  // The number of conversions in a format.
  function Conversions(format: seq<Directive>): nat {
    if format == [] then 0
    else (if format[0].Unsigned32? then 1 else 0) + Conversions(format[1..])
  }

  /** sscanf: the values stored, in order, up to the first directive that does not match.
      The return value of the C call is the length of this sequence (or EOF for 0). */
  function Sscanf(format: seq<Directive>, s: string): seq<u32>
    requires WellFormed(format)
  {
    if format == [] then []
    else match format[0]
      case Literal(c) =>
        if s != [] && s[0] == c then Sscanf(format[1..], s[1..]) else []
      case Unsigned32(base) =>
        match ScanNumber(s, base)
        case None => []
        case Some(n) => [n.value % U32] + Sscanf(format[1..], n.rest)
  }

  lemma {:induction false} SscanfCount(format: seq<Directive>, s: string)
    requires WellFormed(format)
    ensures |Sscanf(format, s)| <= Conversions(format)
  {
    if format != [] {
      match format[0]
      case Literal(c) => if s != [] { SscanfCount(format[1..], s[1..]); }
      case Unsigned32(base) =>
        var n := ScanNumber(s, base);
        if n.Some? { SscanfCount(format[1..], n.value.rest); }
    }
  }

  // ---- printing and reading back ----

  predicate StopsNumber(s: string, base: nat) {
    s == [] || (!IsDigit(s[0], base) && s[0] != 'x' && s[0] != 'X')
  }

  // A nonempty digit string in front of anything that is not a digit scans as its value.
  lemma ScanDigits(ds: string, tail: string, base: nat)
    requires base == 10 || base == 16
    requires ds != [] && AllDigits(ds, base) && StopsNumber(tail, base)
    ensures ScanNumber(ds + tail, base) == Some(Number(Unsigned(false, Value(ds, base)), tail))
  {
    var s := ds + tail;
    assert IsDigit(s[0], base);
    assert SkipSpace(s) == s;
    if |s| >= 2 {
      assert s[1] != 'x' && s[1] != 'X' by {
        if |ds| >= 2 { assert IsDigit(ds[1], base) && s[1] == ds[1]; } else { assert s[1] == tail[0]; }
      }
    }
    RunOfDigits(ds, tail, base);
    assert s[..|ds|] == ds && s[|ds|..] == tail;
  }

  lemma {:induction false} RunOfDigits(ds: string, tail: string, base: nat)
    requires AllDigits(ds, base) && StopsNumber(tail, base)
    ensures DigitRun(ds + tail, base) == |ds|
  {
    if ds == [] {
      assert ds + tail == tail;
    } else {
      assert (ds + tail)[1..] == ds[1..] + tail;
      RunOfDigits(ds[1..], tail, base);
    }
  }

  // A number below 2^32 at the front of a text scans back to itself.
  lemma ScanPrinted(ds: string, follow: string, base: nat)
    requires base == 10 || base == 16
    requires Numeral(ds, base) && StopsNumber(follow, base)
    ensures ScanNumber(ds + follow, base).Some?
    ensures ScanNumber(ds + follow, base).value.rest == follow
    ensures ScanNumber(ds + follow, base).value.value % U32 == Value(ds, base)
  {
    ScanDigits(ds, follow, base);
  }

  // A digit string for a 32-bit number.
  predicate Numeral(ds: string, base: nat) {
    ds != [] && AllDigits(ds, base) && Value(ds, base) < U32
  }

  predicate Numerals(digits: seq<string>, base: nat) {
    forall i :: 0 <= i < |digits| ==> Numeral(digits[i], base)
  }

  // What printf writes for a format, given the digit string of each conversion.
  function Text(format: seq<Directive>, digits: seq<string>): string
    requires |digits| == Conversions(format)
  {
    if format == [] then []
    else match format[0]
      case Literal(c) => [c] + Text(format[1..], digits)
      case Unsigned32(_) => digits[0] + Text(format[1..], digits[1..])
  }

  /** All conversions use one base, and each is followed by the end of the format or by a
      literal that cannot continue a number. */
  predicate Separated(format: seq<Directive>, base: nat) {
    (base == 10 || base == 16) &&
    (format != [] ==>
      && (format[0].Unsigned32? ==>
           format[0].base == base && (|format| == 1 || LiteralStop(format[1], base)))
      && Separated(format[1..], base))
  }

  predicate LiteralStop(d: Directive, base: nat) {
    d.Literal? && StopsNumber([d.c], base)
  }

  // A format grows at the front by a conversion and the literal that ends it.
  lemma FormatField(base: nat, c: char, more: seq<Directive>)
    requires Separated(more, base) && StopsNumber([c], base)
    ensures var format := [Unsigned32(base), Literal(c)] + more;
            Separated(format, base) && Conversions(format) == 1 + Conversions(more)
  {
    var format := [Unsigned32(base), Literal(c)] + more;
    assert format[1..] == [Literal(c)] + more && format[1..][1..] == more;
  }

  lemma FormatLiteral(base: nat, c: char, more: seq<Directive>)
    requires Separated(more, base)
    ensures Separated([Literal(c)] + more, base) && Conversions([Literal(c)] + more) == Conversions(more)
  {
    assert ([Literal(c)] + more)[1..] == more;
  }

  // A format of letters only.
  function Letters(s: string): seq<Directive> {
    if s == [] then [] else [Literal(s[0])] + Letters(s[1..])
  }

  // A format grows at the front by letters, which are printed as they stand.
  lemma {:induction false} FormatLetters(base: nat, s: string, more: seq<Directive>)
    requires Separated(more, base)
    ensures Separated(Letters(s) + more, base) && Conversions(Letters(s) + more) == Conversions(more)
  {
    if s == [] {
      assert Letters(s) + more == more;
    } else {
      FormatLetters(base, s[1..], more);
      FormatLiteral(base, s[0], Letters(s[1..]) + more);
      assert Letters(s) + more == [Literal(s[0])] + (Letters(s[1..]) + more);
    }
  }

  lemma {:induction false} TextOfLetters(s: string, more: seq<Directive>, digits: seq<string>)
    requires |digits| == Conversions(more)
    ensures Conversions(Letters(s) + more) == |digits| && Text(Letters(s) + more, digits) == s + Text(more, digits)
  {
    if s == [] {
      assert Letters(s) + more == more;
    } else {
      TextOfLetters(s[1..], more, digits);
      TextOfLiteral(s[0], Letters(s[1..]) + more, digits);
      assert Letters(s) + more == [Literal(s[0])] + (Letters(s[1..]) + more);
    }
  }

  // What follows a printed number stops it: the next literal, or the tail.
  lemma TextStopsNumber(format: seq<Directive>, base: nat, digits: seq<string>, tail: string)
    requires format != [] && format[0].Unsigned32? && Separated(format, base)
    requires |digits| == Conversions(format) && StopsNumber(tail, base)
    ensures StopsNumber(Text(format[1..], digits[1..]) + tail, base)
  {
    var rest := format[1..];
    if rest == [] {
      assert Text(rest, digits[1..]) + tail == tail;
    } else {
      assert rest[0] == format[1] && LiteralStop(format[1], base);
      assert (Text(rest, digits[1..]) + tail)[0] == [rest[0].c][0];
    }
  }

  // The numbers the digit strings stand for.
  function Values(digits: seq<string>, base: nat): (vals: seq<u32>)
    requires Numerals(digits, base)
  {
    seq(|digits|, i requires 0 <= i < |digits| => Value(digits[i], base))
  }

  lemma SscanfNumber(format: seq<Directive>, ds: string, follow: string)
    requires WellFormed(format) && format != [] && format[0].Unsigned32?
    requires Numeral(ds, format[0].base) && StopsNumber(follow, format[0].base)
    ensures Sscanf(format, ds + follow) == [Value(ds, format[0].base)] + Sscanf(format[1..], follow)
  {
    ScanPrinted(ds, follow, format[0].base);
  }

  lemma ValuesFirst(digits: seq<string>, base: nat)
    requires digits != [] && Numerals(digits, base)
    ensures Numeral(digits[0], base) && Numerals(digits[1..], base)
    ensures Values(digits, base) == [Value(digits[0], base)] + Values(digits[1..], base)
  {}

  lemma SscanfLiteral(format: seq<Directive>, rest: string)
    requires WellFormed(format) && format != [] && format[0].Literal?
    ensures Sscanf(format, [format[0].c] + rest) == Sscanf(format[1..], rest)
  {
    assert ([format[0].c] + rest)[1..] == rest;
  }

  lemma TextFirst(format: seq<Directive>, digits: seq<string>, tail: string)
    requires format != [] && |digits| == Conversions(format)
    ensures Text(format, digits) + tail ==
              if format[0].Literal? then [format[0].c] + (Text(format[1..], digits) + tail)
              else digits[0] + (Text(format[1..], digits[1..]) + tail)
  {}

  /** Reading back what was printed: sscanf with the same format recovers every number,
      whatever follows the text as long as it does not continue the last number. */
  lemma {:induction false} SscanfText(format: seq<Directive>, base: nat, digits: seq<string>, tail: string)
    requires Separated(format, base) && WellFormed(format) && |digits| == Conversions(format)
    requires Numerals(digits, base) && StopsNumber(tail, base)
    ensures Sscanf(format, Text(format, digits) + tail) == Values(digits, base)
  {
    if format != [] {
      TextFirst(format, digits, tail);
      if format[0].Literal? {
        SscanfText(format[1..], base, digits, tail);
        SscanfLiteral(format, Text(format[1..], digits) + tail);
      } else {
        ValuesFirst(digits, base);
        TextStopsNumber(format, base, digits, tail);
        SscanfText(format[1..], base, digits[1..], tail);
        SscanfNumber(format, digits[0], Text(format[1..], digits[1..]) + tail);
      }
    }
  }

  // The text of a format, piece by piece.
  lemma TextOfLiteral(c: char, more: seq<Directive>, digits: seq<string>)
    requires |digits| == Conversions(more)
    ensures Conversions([Literal(c)] + more) == |digits| && Text([Literal(c)] + more, digits) == [c] + Text(more, digits)
  {
    assert ([Literal(c)] + more)[1..] == more;
  }

  lemma TextOfLast(base: nat, ds: string)
    ensures Conversions([Unsigned32(base)]) == 1 && Text([Unsigned32(base)], [ds]) == ds
  {
    assert [Unsigned32(base)][1..] == [] && [ds][1..] == [];
  }

  lemma TextOfField(base: nat, c: char, more: seq<Directive>, ds: string, digits: seq<string>)
    requires |digits| == Conversions(more)
    ensures var format := [Unsigned32(base), Literal(c)] + more;
            Conversions(format) == 1 + |digits| && Text(format, [ds] + digits) == ds + [c] + Text(more, digits)
  {
    var format := [Unsigned32(base), Literal(c)] + more;
    TextOfLiteral(c, more, digits);
    assert format[1..] == [Literal(c)] + more && ([ds] + digits)[1..] == digits;
  }

  // ---- characters and numbers as they are written ----

  /** The digits, in both cases, and their values. */
  lemma DigitTable(k: nat)
    requires k < 16
    ensures DigitValue("0123456789abcdef"[k]) == k && DigitValue("0123456789ABCDEF"[k]) == k
    ensures IsDigit("0123456789abcdef"[k], 16) && IsDigit("0123456789ABCDEF"[k], 16)
    ensures IsDigit("0123456789abcdef"[k], 10) <==> k < 10
  {}

  lemma DigitsOnly(c: char, base: nat)
    requires base == 10 || base == 16
    ensures IsDigit(c, base) <==> c in "0123456789" || (base == 16 && c in "abcdefABCDEF")
  {
    var d, h := "0123456789", "abcdefABCDEF";
    assert '0' <= c <= '9' ==> d[c as int - 48] == c;
    assert 'a' <= c <= 'f' ==> h[c as int - 97] == c;
    assert 'A' <= c <= 'F' ==> h[c as int - 65 + 6] == c;
  }

  /** A digit string is read most significant digit first. */
  lemma ValueOfLast(ds: string, k: nat, base: nat)
    requires k < 16
    ensures Value(ds + ["0123456789abcdef"[k]], base) == Value(ds, base) * base + k
  {
    DigitTable(k);
    assert (ds + ["0123456789abcdef"[k]])[..|ds|] == ds;
  }

  /** White space and a sign in front of a number: a minus sign negates modulo 2^64, and a
      number too large counts as 2^64 - 1. */
  lemma ScanSigned(space: string, sign: string, ds: string, tail: string)
    requires sign in ["", "+", "-"] && forall i :: 0 <= i < |space| ==> space[i] in " \t\n\r"
    requires ds != [] && AllDigits(ds, 10) && StopsNumber(tail, 10)
    ensures ScanNumber(space + (sign + (ds + tail)), 10) == Some(Number(SignedValue(sign == "-", Value(ds, 10)), tail))
  {
    var t := sign + (ds + tail);
    AfterSign(sign, ds, tail);
    SkipsSpace(space, t);
    ScanAfterSign(space + t, sign == "-", t, ds + tail, ds, tail);
    UnsignedIs(sign == "-", Value(ds, 10));
  }

  lemma UnsignedIs(negative: bool, n: nat)
    ensures Unsigned(negative, n) == SignedValue(negative, n)
  {}

  function SignedValue(negative: bool, n: nat): int {
    if n >= 0x1_0000_0000_0000_0000 then 0xFFFF_FFFF_FFFF_FFFF
    else if negative && n > 0 then 0x1_0000_0000_0000_0000 - n
    else n
  }

  /** A hexadecimal number may be written with 0x or 0X in front of it, and a 32-bit reading
      keeps its low 32 bits. */
  lemma ScanPrefixed(x: char, ds: string, tail: string)
    requires x in "xX" && AllDigits(ds, 16) && StopsNumber(tail, 16) && Value(ds, 16) < 0x1_0000_0000_0000_0000
    ensures Sscanf([Unsigned32(16)], ['0', x] + (ds + tail)) == [Value(ds, 16) % 0x1_0000_0000]
  {
    var s, d := ['0', x] + (ds + tail), ds + tail;
    assert SkipSpace(s) == s && s[2..] == d;
    RunOfDigits(ds, tail, 16);
    assert d[..|ds|] == ds && d[|ds|..] == tail;
    assert ScanNumber(s, 16) == Some(Number(Value(ds, 16), tail));
  }

  lemma AfterSign(sign: string, ds: string, tail: string)
    requires sign in ["", "+", "-"]
    requires ds != [] && AllDigits(ds, 10) && StopsNumber(tail, 10)
    ensures var t := sign + (ds + tail);
            && t != [] && !IsSpace(t[0]) && (t[0] == '-' <==> sign == "-")
            && ds + tail == if t[0] == '-' || t[0] == '+' then t[1..] else t
    ensures var d := ds + tail; d != [] && IsDigit(d[0], 10) && DigitRun(d, 10) == |ds| && d[..|ds|] == ds && d[|ds|..] == tail
  {
    assert IsDigit(ds[0], 10) && (ds + tail)[0] == ds[0];
    RunOfDigits(ds, tail, 10);
    if sign == "" { assert sign + (ds + tail) == ds + tail; }
  }

  lemma ScanAfterSign(s: string, negative: bool, t: string, d: string, ds: string, tail: string)
    requires SkipSpace(s) == t && t != [] && d != [] && IsDigit(d[0], 10) && negative == (t[0] == '-')
    requires d == if t[0] == '-' || t[0] == '+' then t[1..] else t
    requires ds != [] && DigitRun(d, 10) == |ds| && d[..|ds|] == ds && d[|ds|..] == tail
    ensures ScanNumber(s, 10) == Some(Number(Unsigned(negative, Value(ds, 10)), tail))
  {}

  lemma {:induction false} SkipsSpace(space: string, t: string)
    requires forall i :: 0 <= i < |space| ==> space[i] in " \t\n\r"
    requires t != [] && !IsSpace(t[0])
    ensures SkipSpace(space + t) == t
  {
    if space == [] {
      assert space + t == t;
    } else {
      assert (space + t)[1..] == space[1..] + t;
      SkipsSpace(space[1..], t);
    }
  }

  // ---- searching ----

  predicate Occurs(s: string, pattern: string, i: int) {
    0 <= i <= |s| - |pattern| && s[i..i + |pattern|] == pattern
  }

  /** strstr(s, pattern) != NULL. */
  predicate StrStr(s: string, pattern: string) {
    exists i | 0 <= i <= |s| - |pattern| :: Occurs(s, pattern, i)
  }

  lemma OccursHasCharacter(s: string, pattern: string, i: int, c: char)
    requires Occurs(s, pattern, i) && c in pattern
    ensures c in s
  {
    var k :| 0 <= k < |pattern| && pattern[k] == c;
    assert s[i + k] == s[i..i + |pattern|][k];
  }

  lemma NoSuchCharacter(s: string, pattern: string, c: char)
    requires c !in s && c in pattern
    ensures !StrStr(s, pattern)
  {
    if i :| Occurs(s, pattern, i) {
      OccursHasCharacter(s, pattern, i, c);
    }
  }
}
