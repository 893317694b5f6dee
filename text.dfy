/** String primitives of Python that the shortlisting script relies on:
    `str.strip()`, `str.endswith`, `str.join`, `str.replace(' ', '_')` and the
    `{i:02d}` format, written out over `seq<char>`. */
module Text {

  /** Python's `str.isspace()` for one character; the regular-expression class
      `\s` of a `str` pattern matches exactly the same characters. */
  predicate IsSpace(c: char) {
    var n := c as int;
    (0x09 <= n <= 0x0D) || (0x1C <= n <= 0x20) || n == 0x85 || n == 0xA0 ||
    n == 0x1680 || (0x2000 <= n <= 0x200A) || n == 0x2028 || n == 0x2029 ||
    n == 0x202F || n == 0x205F || n == 0x3000
  }

  /** Number of leading whitespace characters of `s`. */
  function LeadingSpaces(s: string): (n: nat)
    ensures n <= |s|
    ensures forall i :: 0 <= i < n ==> IsSpace(s[i])
    ensures n < |s| ==> !IsSpace(s[n])
  {
    if s != [] && IsSpace(s[0]) then 1 + LeadingSpaces(s[1..]) else 0
  }

  /** Number of trailing whitespace characters of `s`. */
  function TrailingSpaces(s: string): (n: nat)
    ensures n <= |s|
    ensures forall i :: |s| - n <= i < |s| ==> IsSpace(s[i])
    ensures n < |s| ==> !IsSpace(s[|s| - n - 1])
  {
    if s != [] && IsSpace(s[|s| - 1]) then 1 + TrailingSpaces(s[..|s| - 1]) else 0
  }

  /** Python's `s.strip()`: `s` without its leading and trailing whitespace. */
  function Strip(s: string): (r: string)
    ensures |r| <= |s|
  {
    var front := s[LeadingSpaces(s)..];
    front[..|front| - TrailingSpaces(front)]
  }

  /** What `strip` removes and keeps: a whitespace run on each side, and a
      middle that neither starts nor ends with whitespace; the result is empty
      exactly for an all-whitespace string. */
  lemma StripSpec(s: string)
    ensures var r := Strip(s);
      && LeadingSpaces(s) + |r| <= |s|
      && r == s[LeadingSpaces(s)..LeadingSpaces(s) + |r|]
      && (forall i :: LeadingSpaces(s) + |r| <= i < |s| ==> IsSpace(s[i]))
      && (r != [] ==> !IsSpace(r[0]) && !IsSpace(r[|r| - 1]))
      && (r == [] <==> forall i :: 0 <= i < |s| ==> IsSpace(s[i]))
  {
  }

  /** A string that neither starts nor ends with whitespace is its own strip. */
  lemma StripNoop(s: string)
    requires s != [] ==> !IsSpace(s[0]) && !IsSpace(s[|s| - 1])
    ensures Strip(s) == s
  {
    if s != [] {
      assert LeadingSpaces(s) == 0;
      assert TrailingSpaces(s) == 0;
    }
  }

  /** Stripping twice is stripping once. */
  lemma StripIdempotent(s: string)
    ensures Strip(Strip(s)) == Strip(s)
  {
    StripSpec(s);
    StripNoop(Strip(s));
  }

  /** Python's `s.endswith(suffix)`. */
  predicate EndsWith(s: string, suffix: string) {
    |suffix| <= |s| && s[|s| - |suffix|..] == suffix
  }

  /** Python's `sep.join(parts)`. */
  function Join(parts: seq<string>, sep: string): string {
    if |parts| == 0 then ""
    else if |parts| == 1 then parts[0]
    else parts[0] + sep + Join(parts[1..], sep)
  }

  /** Where `parts[k]` begins inside `Join(parts, sep)`. */
  function JoinOffset(parts: seq<string>, sep: string, k: nat): nat
    requires k <= |parts|
  {
    if k == 0 then 0 else |parts[0]| + |sep| + JoinOffset(parts[1..], sep, k - 1)
  }

  /** `piece` stands in `s` at offset `at`. */
  predicate OccursAt(s: string, at: nat, piece: string) {
    at + |piece| <= |s| && s[at..at + |piece|] == piece
  }

  lemma OccursWhole(s: string)
    ensures OccursAt(s, 0, s)
  {
  }

  /** What stands in the left part of a concatenation stands in the whole. */
  lemma OccursInLeft(s: string, x: string, y: string, at: nat, piece: string)
    requires s == x + y && OccursAt(x, at, piece)
    ensures OccursAt(s, at, piece)
  {
    assert s[at..at + |piece|] == x[at..at + |piece|];
  }

  /** What stands in the right part of a concatenation stands in the whole, shifted. */
  lemma OccursInRight(s: string, x: string, y: string, at: nat, piece: string)
    requires s == x + y && OccursAt(y, at, piece)
    ensures OccursAt(s, |x| + at, piece)
  {
    var found := s[|x| + at..|x| + at + |piece|];
    assert forall n :: 0 <= n < |piece| ==> found[n] == piece[n];
  }

  /** Occurrence is transitive: a piece of a piece stands in the whole. */
  lemma OccursWithin(s: string, at: nat, piece: string, o: nat, sub: string)
    requires OccursAt(s, at, piece) && OccursAt(piece, o, sub)
    ensures OccursAt(s, at + o, sub)
  {
    var found := s[at + o..at + o + |sub|];
    assert forall n :: 0 <= n < |sub| ==> found[n] == sub[n];
  }

  /** Every part occurs verbatim in the joined string, at its offset. */
  lemma {:induction false} JoinContainsPart(parts: seq<string>, sep: string, k: nat)
    requires k < |parts|
    ensures OccursAt(Join(parts, sep), JoinOffset(parts, sep, k), parts[k])
  {
    var joined := Join(parts, sep);
    if k == 0 {
      if |parts| == 1 {
        OccursWhole(parts[0]);
      } else {
        OccursWhole(parts[0]);
        OccursInLeft(joined, parts[0], sep + Join(parts[1..], sep), 0, parts[0]);
      }
    } else {
      JoinContainsPart(parts[1..], sep, k - 1);
      var pre := parts[0] + sep;
      assert joined == pre + Join(parts[1..], sep);
      OccursInRight(joined, pre, Join(parts[1..], sep), JoinOffset(parts[1..], sep, k - 1), parts[k]);
    }
  }

  /** The separator stands between each part and the next. */
  lemma {:induction false} JoinContainsSeparator(parts: seq<string>, sep: string, k: nat)
    requires k + 1 < |parts|
    ensures OccursAt(Join(parts, sep), JoinOffset(parts, sep, k) + |parts[k]|, sep)
  {
    var rest := Join(parts[1..], sep);
    var joined := Join(parts, sep);
    assert joined == parts[0] + (sep + rest);
    if k == 0 {
      OccursWhole(sep);
      OccursInLeft(sep + rest, sep, rest, 0, sep);
      OccursInRight(joined, parts[0], sep + rest, 0, sep);
    } else {
      JoinContainsSeparator(parts[1..], sep, k - 1);
      assert parts[1..][k - 1] == parts[k];
      assert joined == (parts[0] + sep) + rest;
      OccursInRight(joined, parts[0] + sep, rest, JoinOffset(parts[1..], sep, k - 1) + |parts[k]|, sep);
    }
  }

  /** The joined string ends where its last part ends: with the parts and the
      separators placed, nothing else is in it. */
  lemma {:induction false} JoinLength(parts: seq<string>, sep: string)
    ensures |parts| == 0 ==> Join(parts, sep) == ""
    ensures |parts| > 0 ==> |Join(parts, sep)| == JoinOffset(parts, sep, |parts| - 1) + |parts[|parts| - 1]|
  {
    if |parts| > 1 {
      JoinLength(parts[1..], sep);
      assert parts[1..][|parts| - 2] == parts[|parts| - 1];
    }
  }

  /** Python's `s.replace(' ', '_')`: every space (U+0020, and only it) becomes an underscore. */
  function ReplaceSpaces(s: string): (r: string)
    ensures |r| == |s|
    ensures forall i :: 0 <= i < |s| ==> r[i] == (if s[i] == ' ' then '_' else s[i])
    ensures ' ' !in r
  {
    if s == [] then [] else [if s[0] == ' ' then '_' else s[0]] + ReplaceSpaces(s[1..])
  }

  predicate IsDigit(c: char) {
    '0' <= c <= '9'
  }

  function DigitChar(d: nat): (c: char)
    requires d < 10
    ensures IsDigit(c)
  {
    ('0' as int + d) as char
  }

  /** The decimal numeral of `n` without leading zeros. */
  function Decimal(n: nat): (r: string)
    ensures |r| >= 1
    ensures forall i :: 0 <= i < |r| ==> IsDigit(r[i])
    ensures n >= 1 ==> r[0] != '0'
    decreases n
  {
    if n < 10 then [DigitChar(n)] else Decimal(n / 10) + [DigitChar(n % 10)]
  }

  /** Python's `f"{n:02d}"` for a non-negative `n`. */
  function Pad2(n: nat): (r: string)
    ensures |r| >= 2
    ensures forall i :: 0 <= i < |r| ==> IsDigit(r[i])
  {
    if n < 10 then "0" + Decimal(n) else Decimal(n)
  }

  /** The `02d` format: below 100 exactly the tens digit and the units digit,
      zero-padded; from 10 on the plain numeral, with no leading zero. */
  lemma Pad2Spec(n: nat)
    ensures n < 100 ==> Pad2(n) == [DigitChar(n / 10), DigitChar(n % 10)]
    ensures n >= 10 ==> Pad2(n)[0] != '0'
  {
    if 10 <= n < 100 {
      assert Decimal(n / 10) == [DigitChar(n / 10)];
    }
  }

  /** The value of a string of decimal digits. */
  function ParseDecimal(s: string): nat
    requires forall i :: 0 <= i < |s| ==> IsDigit(s[i])
  {
    if s == [] then 0
    else
      var last := s[|s| - 1];
      assert IsDigit(last);
      ParseDecimal(s[..|s| - 1]) * 10 + (last as int - '0' as int)
  }

  lemma {:induction false} ParseDecimalRoundTrip(n: nat)
    ensures ParseDecimal(Decimal(n)) == n
    decreases n
  {
    if n >= 10 {
      ParseDecimalRoundTrip(n / 10);
      var d := Decimal(n);
      assert d[..|d| - 1] == Decimal(n / 10);
    }
  }

  /** The padded rank prefix reads back as the number it was made from. */
  lemma ParsePad2RoundTrip(n: nat)
    ensures ParseDecimal(Pad2(n)) == n
  {
    ParseDecimalRoundTrip(n);
    if n < 10 {
      var p := Pad2(n);
      assert p[..|p| - 1] == "0";
      assert ParseDecimal("0") == 0 by {
        assert ("0")[..0] == [];
      }
    }
  }

  /** The digits at the front of `s`, up to the first non-digit. */
  function LeadingDigits(s: string): (r: string)
    ensures |r| <= |s| && r == s[..|r|]
    ensures forall i :: 0 <= i < |r| ==> IsDigit(r[i])
    ensures |r| < |s| ==> !IsDigit(s[|r|])
  {
    if s != [] && IsDigit(s[0]) then [s[0]] + LeadingDigits(s[1..]) else []
  }

  /** A run of digits followed by a non-digit is exactly what `LeadingDigits` reads. */
  lemma {:induction false} LeadingDigitsOfRun(digits: string, rest: string)
    requires forall i :: 0 <= i < |digits| ==> IsDigit(digits[i])
    requires rest != [] && !IsDigit(rest[0])
    ensures LeadingDigits(digits + rest) == digits
  {
    if digits != [] {
      assert (digits + rest)[1..] == digits[1..] + rest;
      LeadingDigitsOfRun(digits[1..], rest);
    }
  }
}
