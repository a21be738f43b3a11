/** Bytes, big-endian numbers and C strings. */
module Bytes {
  type Byte = x: int | 0 <= x < 256

  /** The number that bytes denote, most significant first. */
  function Value(s: seq<Byte>): nat {
    if s == [] then 0 else Value(s[..|s| - 1]) * 256 + s[|s| - 1]
  }

  /** The k low-order bytes of a number, most significant first. */
  function Digits(n: nat, k: nat): (r: seq<Byte>)
    ensures |r| == k
  {
    if k == 0 then [] else Digits(n / 256, k - 1) + [n % 256]
  }

  function Pow256(k: nat): (r: nat)
    ensures r > 0
  {
    if k == 0 then 1 else 256 * Pow256(k - 1)
  }

  lemma ModSplit(n: nat, m: nat)
    requires m > 0
    ensures n % (256 * m) == n / 256 % m * 256 + n % 256
  {
    var q, r := n / 256 / m, n / 256 % m;
    assert n / 256 == q * m + r;
    assert n == (256 * m) * q + (256 * r + n % 256) by {
      assert n == 256 * (n / 256) + n % 256;
      assert 256 * (q * m) == (256 * m) * q;
    }
    Remainder(n, 256 * m, q, 256 * r + n % 256);
  }

  lemma Remainder(n: int, d: nat, q: int, r: nat)
    requires d > 0 && n == d * q + r && r < d
    ensures n % d == r && n / d == q
  {
    var q', r' := n / d, n % d;
    assert n == d * q' + r';
    var diff: int := q - q';
    assert d * diff == r' - r;
    assert diff >= 1 ==> d * diff >= d;
    assert diff <= -1 ==> d * diff <= 0 - d;
  }

  /** Writing k bytes and reading them back keeps the number mod 256^k. */
  lemma {:induction false} ValueOfDigits(n: nat, k: nat)
    ensures Value(Digits(n, k)) == n % Pow256(k)
  {
    if k > 0 {
      ValueOfDigits(n / 256, k - 1);
      assert Digits(n, k)[..k - 1] == Digits(n / 256, k - 1);
      ModSplit(n, Pow256(k - 1));
    }
  }

  /** Reading and writing back keeps the bytes. */
  lemma {:induction false} DigitsOfValue(s: seq<Byte>)
    ensures Digits(Value(s), |s|) == s
  {
    if s != [] {
      DigitsOfValue(s[..|s| - 1]);
      assert s == s[..|s| - 1] + [s[|s| - 1]];
    }
  }

  /** A 16-bit number from its two bytes. */
  function Word(high: nat, low: nat): nat { high * 256 + low }

  /** htonl: the four bytes of a number taken mod 2^32. */
  function ToBE32(n: nat): seq<Byte> { Digits(n, 4) }

  lemma BE32RoundTrip(n: nat)
    ensures Value(ToBE32(n)) == n % 0x1_0000_0000
  {
    ValueOfDigits(n, 4);
    assert Pow256(2) == 0x1_0000 && Pow256(4) == 256 * (256 * Pow256(2));
  }

  /** The text of a C string: everything before the first NUL. */
  function CStr(s: seq<Byte>): (r: seq<Byte>)
    ensures |r| <= |s|
  {
    if s == [] || s[0] == 0 then [] else [s[0]] + CStr(s[1..])
  }

  /** A C string holds all of s exactly when s has no NUL. */
  lemma {:induction false} CStrWhole(s: seq<Byte>)
    ensures CStr(s) == s <==> 0 !in s
  {
    if s != [] && s[0] != 0 {
      CStrWhole(s[1..]);
      assert s == [s[0]] + s[1..];
    }
  }
}
