/**
 * The parts of Rust's standard library that the validation helpers rely on:
 * the byte length of a `str`, the character classes `char::is_whitespace` and
 * `char::is_alphanumeric`, `str::trim`, and the decimal rendering of an
 * unsigned integer by `format!("{}", n)`.
 *
 * A `string` is a sequence of Unicode scalar values, exactly like a Rust
 * `char` sequence; its length in bytes is that of its UTF-8 encoding.
 */
module RustText {

  /**
   * The Unicode Alphabetic-or-Numeric property for characters above U+007F.
   * Its tables are not part of this model: every property is stated for an
   * arbitrary table, and ASCII characters never consult it.
   */
  type CharTable = char -> bool

  // ---------------------------------------------------------------------
  // UTF-8 length (`str::len`)
  // ---------------------------------------------------------------------

  /** Number of bytes UTF-8 uses to encode `c`. */
  function Utf8Width(c: char): (w: nat)
    ensures 1 <= w <= 4
    ensures w == 1 <==> IsAscii(c)
  {
    var n := c as int;
    if n < 0x80 then 1
    else if n < 0x800 then 2
    else if n < 0x1_0000 then 3
    else 4
  }

  predicate IsAscii(c: char) {
    c as int < 0x80
  }

  predicate AllAscii(s: string) {
    forall i :: 0 <= i < |s| ==> IsAscii(s[i])
  }

  /** `s.len()`: the length of `s` in UTF-8 bytes. */
  function Utf8Len(s: string): (n: nat)
    ensures |s| <= n <= 4 * |s|
  {
    if s == [] then 0 else Utf8Width(s[0]) + Utf8Len(s[1..])
  }

  lemma {:induction false} Utf8LenAppend(a: string, b: string)
    ensures Utf8Len(a + b) == Utf8Len(a) + Utf8Len(b)
  {
    if a != [] {
      assert (a + b)[1..] == a[1..] + b;
      Utf8LenAppend(a[1..], b);
    } else {
      assert a + b == b;
    }
  }

  /** Byte length and character count agree exactly on ASCII text. */
  lemma {:induction false} Utf8LenIsCountIffAscii(s: string)
    ensures Utf8Len(s) == |s| <==> AllAscii(s)
  {
    if s != [] {
      Utf8LenIsCountIffAscii(s[1..]);
      if AllAscii(s) {
        assert AllAscii(s[1..]) by {
          forall i | 0 <= i < |s[1..]| ensures IsAscii(s[1..][i]) {
            assert s[1..][i] == s[i + 1];
          }
        }
      } else if IsAscii(s[0]) {
        var i :| 0 <= i < |s| && !IsAscii(s[i]);
        assert !IsAscii(s[1..][i - 1]);
      }
    }
  }

  /** A run of `n` copies of one character takes `n` times its width. */
  lemma {:induction false} Utf8LenRepeat(c: char, n: nat)
    ensures Utf8Len(seq(n, _ => c)) == n * Utf8Width(c)
  {
    if n > 0 {
      assert seq(n, _ => c)[1..] == seq(n - 1, _ => c);
      Utf8LenRepeat(c, n - 1);
    }
  }

  // ---------------------------------------------------------------------
  // Character classes
  // ---------------------------------------------------------------------

  /** The ASCII characters Rust classes as whitespace, listed one by one. */
  const ASCII_WHITESPACE: string := "\t\n\U{B}\U{C}\r "

  /** The ASCII digits and letters, listed one by one. */
  const ASCII_DIGITS: string := "0123456789"
  const ASCII_UPPER: string := "ABCDEFGHIJKLMNOPQRSTUVWXYZ"
  const ASCII_LOWER: string := "abcdefghijklmnopqrstuvwxyz"

  /**
   * `char::is_whitespace`: the Unicode White_Space property, which is the
   * fixed list of 25 code points below.
   */
  predicate IsWhitespace(c: char) {
    var n := c as int;
    || 0x09 <= n <= 0x0D
    || n == 0x20
    || n == 0x85
    || n == 0xA0
    || n == 0x1680
    || 0x2000 <= n <= 0x200A
    || n == 0x2028
    || n == 0x2029
    || n == 0x202F
    || n == 0x205F
    || n == 0x3000
  }

  predicate AllWhitespace(s: string) {
    forall i :: 0 <= i < |s| ==> IsWhitespace(s[i])
  }

  lemma DigitsListed(c: char)
    ensures IsDigit(c) <==> c in ASCII_DIGITS
  {
  }

  lemma UpperListed(c: char)
    ensures 'A' <= c <= 'Z' <==> c in ASCII_UPPER
  {
  }

  lemma LowerListed(c: char)
    ensures 'a' <= c <= 'z' <==> c in ASCII_LOWER
  {
  }

  /**
   * `char::is_alphanumeric`: ASCII letters and digits, and above U+007F
   * whatever the Unicode Alphabetic or Numeric tables say.
   */
  predicate IsAlphanumeric(c: char, unicodeAlnum: CharTable) {
    || 'a' <= c <= 'z'
    || 'A' <= c <= 'Z'
    || IsDigit(c)
    || (!IsAscii(c) && unicodeAlnum(c))
  }

  /** On ASCII, `is_whitespace` holds exactly for the six listed characters. */
  lemma WhitespaceAsciiListed(c: char)
    requires IsAscii(c)
    ensures IsWhitespace(c) <==> c in ASCII_WHITESPACE
  {
  }

  /** On ASCII, `is_alphanumeric` holds exactly for the listed digits and letters. */
  lemma AlphanumericAsciiListed(c: char, unicodeAlnum: CharTable)
    requires IsAscii(c)
    ensures IsAlphanumeric(c, unicodeAlnum) <==>
              c in ASCII_DIGITS || c in ASCII_UPPER || c in ASCII_LOWER
  {
    DigitsListed(c);
    UpperListed(c);
    LowerListed(c);
  }

  // ---------------------------------------------------------------------
  // `str::trim`
  // ---------------------------------------------------------------------

  /** How many whitespace characters `s` starts with. */
  function LeadingWhitespace(s: string): (n: nat)
    ensures n <= |s|
    ensures forall i :: 0 <= i < n ==> IsWhitespace(s[i])
    ensures n == |s| || !IsWhitespace(s[n])
  {
    if s != [] && IsWhitespace(s[0]) then 1 + LeadingWhitespace(s[1..]) else 0
  }

  /** How many whitespace characters `s` ends with. */
  function TrailingWhitespace(s: string): (n: nat)
    ensures n <= |s|
    ensures forall i :: |s| - n <= i < |s| ==> IsWhitespace(s[i])
    ensures n == |s| || !IsWhitespace(s[|s| - n - 1])
  {
    if s != [] && IsWhitespace(s[|s| - 1]) then 1 + TrailingWhitespace(s[..|s| - 1]) else 0
  }

  /** `str::trim_start`: drops the longest all-whitespace prefix. */
  function TrimStart(s: string): (r: string)
    ensures |r| <= |s| && r == s[|s| - |r|..]
    ensures forall i :: 0 <= i < |s| - |r| ==> IsWhitespace(s[i])
    ensures r == [] || !IsWhitespace(r[0])
  {
    s[LeadingWhitespace(s)..]
  }

  /** `str::trim_end`: drops the longest all-whitespace suffix. */
  function TrimEnd(s: string): (r: string)
    ensures |r| <= |s| && r == s[..|r|]
    ensures forall i :: |r| <= i < |s| ==> IsWhitespace(s[i])
    ensures r == [] || !IsWhitespace(r[|r| - 1])
  {
    s[..|s| - TrailingWhitespace(s)]
  }

  /**
   * `str::trim`: a block of `s`, at most as long, that neither starts nor
   * ends with whitespace; `TrimDropsWhitespace` shows what it drops is
   * whitespace.
   */
  function Trim(s: string): (r: string)
    ensures |r| <= |s| && Contains(s, r)
    ensures r == [] || (!IsWhitespace(r[0]) && !IsWhitespace(r[|r| - 1]))
  {
    var t := TrimStart(s);
    var r := TrimEnd(t);
    assert s[|s| - |t|..|s| - |t| + |r|] == r;
    ContainsAt(s, r, |s| - |t|);
    r
  }

  /**
   * A suffix `t` of `s` whose dropped prefix is whitespace, and a prefix `r`
   * of `t` whose dropped suffix is whitespace, cut `s` into whitespace, `r`,
   * whitespace.
   */
  lemma WhitespaceAround(s: string, t: string, r: string)
    requires |t| <= |s| && t == s[|s| - |t|..]
    requires forall i :: 0 <= i < |s| - |t| ==> IsWhitespace(s[i])
    requires |r| <= |t| && r == t[..|r|]
    requires forall i :: |r| <= i < |t| ==> IsWhitespace(t[i])
    ensures var k := |s| - |t|;
            s[k..k + |r|] == r && AllWhitespace(s[..k]) && AllWhitespace(s[k + |r|..])
  {
    var k := |s| - |t|;
    var head, tail := s[..k], s[k + |r|..];
    forall i | 0 <= i < |head| ensures IsWhitespace(head[i]) {
      assert head[i] == s[i];
    }
    forall i | 0 <= i < |tail| ensures IsWhitespace(tail[i]) {
      assert tail[i] == t[|r| + i];
    }
  }

  /**
   * What `trim` drops is whitespace: the input is the leading whitespace
   * that `TrimStart` removes, then the trimmed text, then whitespace.
   */
  lemma TrimDropsWhitespace(s: string)
    ensures var k := |s| - |TrimStart(s)|;
            var r := Trim(s);
            k + |r| <= |s| && s[k..k + |r|] == r &&
            AllWhitespace(s[..k]) && AllWhitespace(s[k + |r|..])
  {
    var t := TrimStart(s);
    var r := TrimEnd(t);
    var k := |s| - |t|;
    assert k + |r| <= |s| && s[k..k + |r|] == r &&
           AllWhitespace(s[..k]) && AllWhitespace(s[k + |r|..]) by {
      WhitespaceAround(s, t, r);
    }
  }

  /** Trimming leaves nothing exactly when the text is all whitespace. */
  lemma TrimIsEmptyIff(s: string)
    ensures Trim(s) == [] <==> AllWhitespace(s)
  {
    var t := TrimStart(s);
    if Trim(s) == [] {
      // A non-empty `t` would start with a character `TrimEnd` calls whitespace.
      assert t == [];
    } else {
      var r := Trim(s);
      var k := |s| - |t|;
      assert r[0] == t[0] == s[k];
    }
  }

  // ---------------------------------------------------------------------
  // `str::contains`
  // ---------------------------------------------------------------------

  /** `hay.contains(needle)`: `needle` occurs in `hay` as a contiguous block. */
  predicate Contains(hay: string, needle: string): (b: bool)
    decreases |hay|
    ensures needle == [] ==> b
    ensures b ==> |needle| <= |hay|
  {
    || (|needle| <= |hay| && hay[..|needle|] == needle)
    || (hay != [] && Contains(hay[1..], needle))
  }

  /** A block found at any offset is contained. */
  lemma {:induction false} ContainsAt(hay: string, needle: string, offset: nat)
    requires offset + |needle| <= |hay| && hay[offset..offset + |needle|] == needle
    ensures Contains(hay, needle)
  {
    if offset > 0 {
      assert hay[1..][offset - 1..offset - 1 + |needle|] == needle;
      ContainsAt(hay[1..], needle, offset - 1);
    }
  }

  /** `needle` sits in `hay` at `offset`. */
  predicate OccursAt(hay: string, needle: string, offset: nat) {
    offset + |needle| <= |hay| && hay[offset..offset + |needle|] == needle
  }

  /** `hay.contains(needle)` holds exactly when some offset of `hay` holds `needle`. */
  lemma {:induction false} ContainsIffOccurs(hay: string, needle: string)
    ensures Contains(hay, needle) <==> exists k: nat :: OccursAt(hay, needle, k)
  {
    if Contains(hay, needle) {
      if |needle| <= |hay| && hay[..|needle|] == needle {
        assert OccursAt(hay, needle, 0);
      } else {
        ContainsIffOccurs(hay[1..], needle);
        var k: nat :| OccursAt(hay[1..], needle, k);
        assert hay[1..][k..k + |needle|] == hay[k + 1..k + 1 + |needle|];
        assert OccursAt(hay, needle, k + 1);
      }
    } else if exists k: nat :: OccursAt(hay, needle, k) {
      var k: nat :| OccursAt(hay, needle, k);
      ContainsAt(hay, needle, k);
    }
  }

  /** A contained, non-empty block starts with a character of `hay`. */
  lemma {:induction false} ContainsFirstChar(hay: string, needle: string)
    requires needle != [] && Contains(hay, needle)
    ensures needle[0] in hay
  {
    if |needle| <= |hay| && hay[..|needle|] == needle {
      assert hay[0] == needle[0];
    } else {
      ContainsFirstChar(hay[1..], needle);
    }
  }

  // ---------------------------------------------------------------------
  // `format!("{}", n)` for an unsigned integer
  // ---------------------------------------------------------------------

  predicate IsDigit(c: char) {
    '0' <= c <= '9'
  }

  predicate AllDigits(s: string) {
    forall i :: 0 <= i < |s| ==> IsDigit(s[i])
  }

  function DigitChar(d: nat): (c: char)
    requires d < 10
    ensures IsDigit(c) && c as int - '0' as int == d
  {
    ('0' as int + d) as char
  }

  /** The number a string of decimal digits denotes. */
  function DecimalValue(s: string): nat
    requires AllDigits(s)
  {
    if s == [] then 0
    else DecimalValue(s[..|s| - 1]) * 10 + (s[|s| - 1] as int - '0' as int)
  }

  /**
   * The decimal rendering of `n`: digits only, no leading zero except for
   * zero itself, and it denotes `n`.
   */
  function DecimalString(n: nat): (r: string)
    ensures |r| >= 1 && AllDigits(r)
    ensures r[0] == '0' <==> n == 0
    ensures |r| > 1 ==> r[0] != '0'
    ensures DecimalValue(r) == n
  {
    if n < 10 then [DigitChar(n)]
    else
      var prefix := DecimalString(n / 10);
      var r := prefix + [DigitChar(n % 10)];
      assert r[..|r| - 1] == prefix;
      r
  }
}
