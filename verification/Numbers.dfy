/** Numbers as text: the formats that printf and the stream library write, and what strtol reads. */
module Numbers {
  import opened Bytes
  import opened Options

  /** The character of a digit. */
  function DigitChar(d: nat, upper: bool): Byte
    requires d < 16
  {
    if d < 10 then 48 + d else if upper then 55 + d else 87 + d
  }

  /** What a character counts as a digit, or 36 if it is none. */
  function DigitOf(c: Byte): nat {
    if 48 <= c <= 57 then c - 48
    else if 65 <= c <= 90 then c - 55
    else if 97 <= c <= 122 then c - 87
    else 36
  }

  /** n written in a base from 2 to 16, filled with zeros to at least the given width. */
  function Text(n: nat, base: nat, width: nat, upper: bool): (r: seq<Byte>)
    requires 2 <= base <= 16
    ensures |r| >= 1 && |r| >= width
    decreases n + width
  {
    if n < base && width <= 1 then [DigitChar(n, upper)]
    else
      SmallerQuotient(n, base);
      Text(n / base, base, if width > 0 then width - 1 else 0, upper) + [DigitChar(n % base, upper)]
  }

  lemma SmallerQuotient(n: nat, base: nat)
    requires base >= 2
    ensures n / base <= n && n % base < base && (n >= 1 ==> n / base < n) && n / base * base + n % base == n
  {
    assert n / base * 2 <= n / base * base;
  }

  function Power(base: nat, k: nat): nat { if k == 0 then 1 else base * Power(base, k - 1) }

  lemma QuotientBound(n: nat, base: nat, p: nat)
    requires base >= 2 && n < base * p
    ensures n / base < p
  {
    SmallerQuotient(n, base);
    var q := n / base;
    assert q >= p ==> q * base >= p * base;
  }

  /** A number below base^width fills the width exactly. */
  lemma {:induction false} TextWidth(n: nat, base: nat, width: nat, upper: bool)
    requires 2 <= base <= 16 && width >= 1 && n < Power(base, width)
    ensures |Text(n, base, width, upper)| == width
    decreases width
  {
    if width == 1 {
      assert Power(base, 1) == base * Power(base, 0);
    } else {
      QuotientBound(n, base, Power(base, width - 1));
      TextWidth(n / base, base, width - 1, upper);
    }
  }

  lemma TwoDigits(b: Byte, upper: bool)
    ensures Text(b, 16, 2, upper) == [DigitChar(b / 16, upper), DigitChar(b % 16, upper)]
  {
    assert Text(b, 16, 2, upper) == Text(b / 16, 16, 1, upper) + [DigitChar(b % 16, upper)];
  }

  /** A byte as two hexadecimal digits. */
  function HexByte(b: Byte, upper: bool): (r: seq<Byte>)
    ensures r == [DigitChar(b / 16, upper), DigitChar(b % 16, upper)]
  {
    TwoDigits(b, upper);
    Text(b, 16, 2, upper)
  }

  ghost predicate AllDigits(s: seq<Byte>, base: nat) { forall i :: 0 <= i < |s| ==> DigitOf(s[i]) < base }

  function DigitsValue(s: seq<Byte>, base: nat): nat {
    if s == [] then 0 else DigitsValue(s[..|s| - 1], base) * base + DigitOf(s[|s| - 1])
  }

  lemma DigitCharDenotes(d: nat, upper: bool)
    requires d < 16
    ensures DigitOf(DigitChar(d, upper)) == d
  {
  }

  lemma AppendDigit(front: seq<Byte>, c: Byte, base: nat, q: nat, d: nat, n: nat)
    requires AllDigits(front, base) && DigitsValue(front, base) == q
    requires DigitOf(c) == d < base && q * base + d == n
    ensures AllDigits(front + [c], base) && DigitsValue(front + [c], base) == n
  {
    assert (front + [c])[..|front|] == front;
  }

  lemma OneDigitDenotes(d: nat, base: nat, upper: bool)
    requires d < base <= 16
    ensures AllDigits([DigitChar(d, upper)], base) && DigitsValue([DigitChar(d, upper)], base) == d
  {
    DigitCharDenotes(d, upper);
    assert [DigitChar(d, upper)][..0] == [];
  }

  /** Writing a number and adding up its digits gives the number, in upper or lower case. */
  lemma {:induction false} TextDenotes(n: nat, base: nat, width: nat, upper: bool)
    requires 2 <= base <= 16
    ensures AllDigits(Text(n, base, width, upper), base) && DigitsValue(Text(n, base, width, upper), base) == n
    decreases n + width
  {
    hide AllDigits, DigitsValue, DigitOf, DigitChar;
    if n < base && width <= 1 {
      OneDigitDenotes(n, base, upper);
    } else {
      SmallerQuotient(n, base);
      DigitCharDenotes(n % base, upper);
      var q, d := n / base, n % base;
      var narrower := if width > 0 then width - 1 else 0;
      TextDenotes(q, base, narrower, upper);
      AppendDigit(Text(q, base, narrower, upper), DigitChar(d, upper), base, q, d, n);
    }
  }

  predicate IsSpace(c: Byte) { 9 <= c <= 13 || c == 32 }

  function SkipSpace(s: seq<Byte>): seq<Byte> {
    if s != [] && IsSpace(s[0]) then SkipSpace(s[1..]) else s
  }

  function LeadingDigits(s: seq<Byte>, base: nat): (r: seq<Byte>)
    ensures r <= s
  {
    if s == [] || DigitOf(s[0]) >= base then [] else [s[0]] + LeadingDigits(s[1..], base)
  }

  /** The digits at the front of a text, after an 0x that one of them follows. */
  function Unsigned(body: seq<Byte>, base: nat): seq<Byte> {
    if base == 16 && |body| >= 3 && body[0] == 48 && (body[1] == 120 || body[1] == 88) && DigitOf(body[2]) < 16
    then LeadingDigits(body[2..], base)
    else LeadingDigits(body, base)
  }

  /** The number within the limits of a 64-bit long. */
  function Clamped(negative: bool, v: nat): int {
    if negative then (if v > 0x8000_0000_0000_0000 then -0x8000_0000_0000_0000 else 0 - v)
    else if v > 0x7fff_ffff_ffff_ffff then 0x7fff_ffff_ffff_ffff
    else v
  }

  /** strtol: white space, a sign, for base 16 a prefix, then digits up to the first other character;
      nothing if there is no digit. The result is clamped to a 64-bit long. */
  function Strtol(text: seq<Byte>, base: nat): Option<int> {
    var s := SkipSpace(text);
    var signed := s != [] && (s[0] == 45 || s[0] == 43);
    var digits := Unsigned(if signed then s[1..] else s, base);
    if digits == [] then None
    else Some(Clamped(signed && s[0] == 45, DigitsValue(digits, base)))
  }

  /** strtol whose result is used without asking whether there was a number. */
  function StrtolOrZero(text: seq<Byte>, base: nat): int {
    var r := Strtol(text, base);
    if r.Some? then r.value else 0
  }

  /** std::stoi; None where it throws invalid_argument or out_of_range. */
  function Stoi(text: seq<Byte>, base: nat): Option<int> {
    var r := Strtol(text, base);
    if r.Some? && -0x8000_0000 <= r.value < 0x8000_0000 then r else None
  }

  lemma DigitsArePlain(c: Byte)
    requires DigitOf(c) < 16
    ensures !IsSpace(c) && c != 43 && c != 45 && c != 88 && c != 120
  {
  }

  ghost predicate AllSpaces(s: seq<Byte>) { forall i :: 0 <= i < |s| ==> IsSpace(s[i]) }

  ghost predicate NoDigitNext(rest: seq<Byte>, base: nat) { rest == [] || DigitOf(rest[0]) >= base }

  lemma {:induction false} LeadingDigitsStop(s: seq<Byte>, rest: seq<Byte>, base: nat)
    requires AllDigits(s, base) && NoDigitNext(rest, base)
    ensures LeadingDigits(s + rest, base) == s
  {
    if s == [] {
      assert s + rest == rest;
    } else {
      assert (s + rest)[0] == s[0] && (s + rest)[1..] == s[1..] + rest;
      LeadingDigitsStop(s[1..], rest, base);
    }
  }

  lemma {:induction false} SkipSpaceAll(spaces: seq<Byte>, rest: seq<Byte>)
    requires AllSpaces(spaces) && (rest == [] || !IsSpace(rest[0]))
    ensures SkipSpace(spaces + rest) == rest
  {
    if spaces == [] {
      assert spaces + rest == rest;
    } else {
      assert (spaces + rest)[0] == spaces[0] && (spaces + rest)[1..] == spaces[1..] + rest;
      SkipSpaceAll(spaces[1..], rest);
    }
  }

  /** Digits with something behind them; a zero before an x is a prefix in base 16. */
  ghost predicate PlainDigits(digits: seq<Byte>, rest: seq<Byte>, base: nat) {
    && digits != [] && AllDigits(digits, base) && NoDigitNext(rest, base)
    && !(base == 16 && digits == [48] && rest != [] && (rest[0] == 120 || rest[0] == 88))
  }

  lemma UnsignedStops(digits: seq<Byte>, rest: seq<Byte>, base: nat)
    requires (base == 10 || base == 16) && PlainDigits(digits, rest, base)
    ensures Unsigned(digits + rest, base) == digits
  {
    LeadingDigitsStop(digits, rest, base);
    var body := digits + rest;
    if |digits| >= 2 {
      assert body[1] == digits[1] && DigitOf(digits[1]) < base;
      DigitsArePlain(digits[1]);
    } else if |body| >= 2 {
      assert body[1] == rest[0];
    }
  }

  lemma PrefixIsSkipped(x: Byte, digits: seq<Byte>, rest: seq<Byte>)
    requires (x == 120 || x == 88) && digits != [] && AllDigits(digits, 16) && NoDigitNext(rest, 16)
    ensures Unsigned([48, x] + digits + rest, 16) == digits
  {
    var body := [48, x] + digits + rest;
    assert body[2] == digits[0] && DigitOf(digits[0]) < 16 && body[2..] == digits + rest;
    LeadingDigitsStop(digits, rest, 16);
  }

  /** Main result: strtol reads white space, a sign or none, digits and whatever follows them as the digits'
      number with the sign, limited to 64 bits. */
  lemma StrtolReadsForms(spaces: seq<Byte>, sign: seq<Byte>, digits: seq<Byte>, rest: seq<Byte>, base: nat)
    requires (base == 10 || base == 16) && AllSpaces(spaces) && (sign == [] || sign == [43] || sign == [45])
    requires PlainDigits(digits, rest, base)
    ensures Strtol(spaces + sign + digits + rest, base) == Some(Clamped(sign == [45], DigitsValue(digits, base)))
  {
    hide AllDigits, DigitsValue, AllSpaces, Unsigned;
    FirstIsPlain(digits, rest, base);
    AfterSpaces(spaces, sign, digits + rest, base);
    assert spaces + sign + digits + rest == spaces + sign + (digits + rest);
    UnsignedStops(digits, rest, base);
  }

  lemma FirstIsPlain(digits: seq<Byte>, rest: seq<Byte>, base: nat)
    requires base <= 16 && PlainDigits(digits, rest, base)
    ensures var c := (digits + rest)[0]; !IsSpace(c) && c != 43 && c != 45
  {
    assert DigitOf(digits[0]) < base;
    DigitsArePlain(digits[0]);
  }

  lemma AfterSpaces(spaces: seq<Byte>, sign: seq<Byte>, body: seq<Byte>, base: nat)
    requires AllSpaces(spaces) && (sign == [] || sign == [43] || sign == [45])
    requires body != [] && !IsSpace(body[0]) && body[0] != 43 && body[0] != 45
    ensures var digits := Unsigned(body, base);
      Strtol(spaces + sign + body, base)
        == if digits == [] then None else Some(Clamped(sign == [45], DigitsValue(digits, base)))
  {
    hide AllSpaces, Unsigned, DigitsValue;
    var s := sign + body;
    assert s[0] == if sign == [] then body[0] else sign[0];
    assert s[|sign|..] == body;
    SkipSpaceAll(spaces, s);
    assert spaces + sign + body == spaces + s;
  }

  /** The same with the prefix of base 16, in either case. */
  lemma StrtolReadsPrefix(spaces: seq<Byte>, sign: seq<Byte>, x: Byte, digits: seq<Byte>, rest: seq<Byte>)
    requires AllSpaces(spaces) && (sign == [] || sign == [43] || sign == [45]) && (x == 120 || x == 88)
    requires digits != [] && AllDigits(digits, 16) && NoDigitNext(rest, 16)
    ensures Strtol(spaces + sign + ([48, x] + digits + rest), 16)
      == Some(Clamped(sign == [45], DigitsValue(digits, 16)))
  {
    hide AllDigits, DigitsValue, AllSpaces, Unsigned;
    var body := [48, x] + digits + rest;
    assert body[0] == 48;
    PrefixIsSkipped(x, digits, rest);
    AfterSpaces(spaces, sign, body, 16);
  }

  /** A text without a digit where one is due is no number. */
  lemma StrtolReadsNothing(spaces: seq<Byte>, sign: seq<Byte>, rest: seq<Byte>, base: nat)
    requires (base == 10 || base == 16) && AllSpaces(spaces) && (sign == [] || sign == [43] || sign == [45])
    requires rest != [] && !IsSpace(rest[0]) && rest[0] != 43 && rest[0] != 45 && NoDigitNext(rest, base)
    ensures Strtol(spaces + sign + rest, base) == None
  {
    LeadingDigitsStop([], rest, base);
    assert [] + rest == rest;
    AfterSpaces(spaces, sign, rest, base);
  }

  /** Main result: stoi takes digits exactly if their number is one of a 32-bit int. */
  lemma StoiLimit(digits: seq<Byte>, base: nat)
    requires (base == 10 || base == 16) && digits != [] && AllDigits(digits, base)
    ensures Stoi(digits, base)
      == if DigitsValue(digits, base) <= 0x7fff_ffff then Some(DigitsValue(digits, base)) else None
  {
    hide AllDigits, DigitsValue, Strtol;
    StrtolReadsForms([], [], digits, [], base);
    assert [] + [] + digits + [] == digits;
  }

  /** strtol reads back what was written. */
  lemma StrtolReadsText(n: nat, base: nat, width: nat, upper: bool)
    requires base == 10 || base == 16
    requires n <= 0x7fff_ffff_ffff_ffff
    ensures Strtol(Text(n, base, width, upper), base) == Some(n)
  {
    hide AllDigits, DigitsValue, Strtol;
    var text := Text(n, base, width, upper);
    TextDenotes(n, base, width, upper);
    StrtolReadsForms([], [], text, [], base);
    assert [] + [] + text + [] == text;
  }
}
