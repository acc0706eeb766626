/**
 * The input-validation helpers of the application's native side and the
 * `greet` command built on them: a byte-length bound, a character-whitelist
 * filter, and a greeting that rejects over-long and blank names.
 */
module Validation {
  import opened Results
  import opened RustText
  import opened Sequences

  /** Limit `greet` applies to its argument, in bytes. */
  const MAX_NAME_LENGTH: nat := 100

  const EMPTY_NAME_ERROR: string := "Name cannot be empty"
  const GREETING_PREFIX: string := "Hello, "
  const GREETING_SUFFIX: string := "! Welcome to TIPTV."

  const LENGTH_ERROR_HEAD: string := "Input exceeds maximum length of "
  const LENGTH_ERROR_TAIL: string := " characters"

  /**
   * The message `validate_string_length` fails with: the limit, written in
   * decimal, can be read back from between the fixed head and tail.
   */
  function LengthError(maxLength: nat): (m: string)
    ensures |LENGTH_ERROR_HEAD| + |LENGTH_ERROR_TAIL| < |m|
    ensures m[..|LENGTH_ERROR_HEAD|] == LENGTH_ERROR_HEAD
    ensures m[|m| - |LENGTH_ERROR_TAIL|..] == LENGTH_ERROR_TAIL
    ensures var digits := m[|LENGTH_ERROR_HEAD|..|m| - |LENGTH_ERROR_TAIL|];
            AllDigits(digits) && DecimalValue(digits) == maxLength &&
            (|digits| > 1 ==> digits[0] != '0')
  {
    var digits := DecimalString(maxLength);
    var m := LENGTH_ERROR_HEAD + digits + LENGTH_ERROR_TAIL;
    assert m[|LENGTH_ERROR_HEAD|..|m| - |LENGTH_ERROR_TAIL|] == digits;
    m
  }

  /** The message `greet` fails with on an over-long name. */
  lemma LengthErrorForNames()
    ensures LengthError(MAX_NAME_LENGTH) == "Input exceeds maximum length of 100 characters"
  {
    HundredInDecimal();
  }

  lemma HundredInDecimal()
    ensures DecimalString(100) == "100"
  {
    assert DecimalString(10) == "1" + "0";
    assert DecimalString(100) == "10" + "0";
  }

  /** Every length message names the maximum it enforces. */
  lemma LengthErrorMentionsMaximum(maxLength: nat)
    ensures Contains(LengthError(maxLength), "maximum length")
  {
    var message := LengthError(maxLength);
    assert message[14..28] == "maximum length";
    ContainsAt(message, "maximum length", 14);
  }

  // ---------------------------------------------------------------------
  // validate_string_length
  // ---------------------------------------------------------------------

  /**
   * `validate_string_length`: accepts `input` when its UTF-8 byte length is
   * at most `maxLength`, and fails with the length message otherwise.
   */
  function ValidateStringLength(input: string, maxLength: nat): (r: Result<()>)
    ensures r.Ok? <==> Utf8Len(input) <= maxLength
    ensures r.Err? ==> r.error == LengthError(maxLength)
  {
    if Utf8Len(input) > maxLength then Err(LengthError(maxLength)) else Ok(())
  }

  /**
   * The bound counts bytes: an accepted input never has more characters than
   * the limit, and on ASCII input the bound is exactly a character bound.
   */
  lemma ValidateBoundsCharacters(input: string, maxLength: nat)
    ensures ValidateStringLength(input, maxLength).Ok? ==> |input| <= maxLength
    ensures AllAscii(input) ==>
              (ValidateStringLength(input, maxLength).Ok? <==> |input| <= maxLength)
  {
    Utf8LenIsCountIffAscii(input);
  }

  /**
   * Beyond ASCII the bound is stricter than its message suggests: 51
   * characters of two bytes each are refused with the message about a
   * maximum of 100 characters.
   */
  lemma ValidateRejectsFewerCharactersThanLimit(unicodeAlnum: CharTable)
    ensures var s := seq(51, _ => '\U{E9}');
            |s| < MAX_NAME_LENGTH &&
            ValidateStringLength(s, MAX_NAME_LENGTH) == Err(LengthError(MAX_NAME_LENGTH)) &&
            Greet(s, unicodeAlnum) == Err("Input exceeds maximum length of 100 characters")
  {
    Utf8LenRepeat('\U{E9}', 51);
    LengthErrorForNames();
  }

  // ---------------------------------------------------------------------
  // sanitize_string
  // ---------------------------------------------------------------------

  /** The whitelist: alphanumerics, whitespace, `-`, `_` and `.`. */
  predicate IsAllowed(c: char, unicodeAlnum: CharTable) {
    IsAlphanumeric(c, unicodeAlnum) || IsWhitespace(c) || c == '-' || c == '_' || c == '.'
  }

  predicate AllAllowed(s: string, unicodeAlnum: CharTable) {
    forall i :: 0 <= i < |s| ==> IsAllowed(s[i], unicodeAlnum)
  }

  predicate AllRefused(s: string, unicodeAlnum: CharTable) {
    forall i :: 0 <= i < |s| ==> !IsAllowed(s[i], unicodeAlnum)
  }

  /** On ASCII the whitelist is exactly the listed digits, letters, whitespace and `-_.`. */
  lemma AllowedAsciiListed(c: char, unicodeAlnum: CharTable)
    requires IsAscii(c)
    ensures IsAllowed(c, unicodeAlnum) <==>
              c in ASCII_DIGITS || c in ASCII_UPPER || c in ASCII_LOWER ||
              c in ASCII_WHITESPACE || c in "-_."
  {
    AlphanumericAsciiListed(c, unicodeAlnum);
    WhitespaceAsciiListed(c);
  }

  /** What the filter keeps of one character. */
  function Kept(c: char, unicodeAlnum: CharTable): string {
    if IsAllowed(c, unicodeAlnum) then [c] else []
  }

  /**
   * `sanitize_string`: the characters of `input` that are on the whitelist,
   * in their original order.
   */
  function Sanitize(input: string, unicodeAlnum: CharTable): (r: string)
    ensures |r| <= |input|
    ensures AllAllowed(r, unicodeAlnum)
  {
    if input == [] then []
    else Sanitize(input[..|input| - 1], unicodeAlnum) + Kept(input[|input| - 1], unicodeAlnum)
  }

  /** `r` is obtained from `s` by deleting characters, keeping the order. */
  predicate IsSubsequence(r: string, s: string)
    decreases |s|
  {
    || r == []
    || (s != [] &&
        ((r[|r| - 1] == s[|s| - 1] && IsSubsequence(r[..|r| - 1], s[..|s| - 1]))
         || IsSubsequence(r, s[..|s| - 1])))
  }

  /** Appending one character appends what the filter keeps of it. */
  lemma SanitizeSnoc(s: string, c: char, unicodeAlnum: CharTable)
    ensures Sanitize(s + [c], unicodeAlnum) == Sanitize(s, unicodeAlnum) + Kept(c, unicodeAlnum)
  {
    var sc := s + [c];
    assert sc[..|sc| - 1] == s;
  }

  /** Filtering a concatenation filters each part. */
  lemma {:induction false} SanitizeAppend(a: string, b: string, unicodeAlnum: CharTable)
    ensures Sanitize(a + b, unicodeAlnum) == Sanitize(a, unicodeAlnum) + Sanitize(b, unicodeAlnum)
  {
    if b == [] {
      assert a + b == a;
    } else {
      var b', c := b[..|b| - 1], b[|b| - 1];
      SplitLast(a, b);
      SanitizeSnoc(a + b', c, unicodeAlnum);
      SanitizeSnoc(b', c, unicodeAlnum);
      SanitizeAppend(a, b', unicodeAlnum);
      ConcatAssoc(Sanitize(a, unicodeAlnum), Sanitize(b', unicodeAlnum), Kept(c, unicodeAlnum));
    }
  }

  /** Filtering splits at any position. */
  lemma SanitizeSplit(input: string, k: nat, unicodeAlnum: CharTable)
    requires k <= |input|
    ensures Sanitize(input, unicodeAlnum)
         == Sanitize(input[..k], unicodeAlnum) + Sanitize(input[k..], unicodeAlnum)
  {
    assert input == input[..k] + input[k..];
    SanitizeAppend(input[..k], input[k..], unicodeAlnum);
  }

  /** The output is a subsequence of the input. */
  lemma {:induction false} SanitizeIsSubsequence(input: string, unicodeAlnum: CharTable)
    ensures IsSubsequence(Sanitize(input, unicodeAlnum), input)
  {
    if input != [] {
      var front := input[..|input| - 1];
      SanitizeIsSubsequence(front, unicodeAlnum);
      var r := Sanitize(input, unicodeAlnum);
      if IsAllowed(input[|input| - 1], unicodeAlnum) {
        assert r[|r| - 1] == input[|input| - 1] && r[..|r| - 1] == Sanitize(front, unicodeAlnum);
      } else {
        assert r == Sanitize(front, unicodeAlnum);
      }
    }
  }

  /**
   * Every allowed character occurs as often in the output as in the input,
   * and no other character occurs at all.
   */
  lemma {:induction false} SanitizeCounts(input: string, unicodeAlnum: CharTable)
    ensures forall c :: multiset(Sanitize(input, unicodeAlnum))[c] ==
                        if IsAllowed(c, unicodeAlnum) then multiset(input)[c] else 0
  {
    if input != [] {
      var front := input[..|input| - 1];
      SanitizeCounts(front, unicodeAlnum);
      assert input == front + [input[|input| - 1]];
    }
  }

  /** Text made only of allowed characters comes back unchanged, and only such text does. */
  lemma {:induction false} SanitizeFixedPointIff(input: string, unicodeAlnum: CharTable)
    ensures Sanitize(input, unicodeAlnum) == input <==> AllAllowed(input, unicodeAlnum)
  {
    if input != [] && AllAllowed(input, unicodeAlnum) {
      var front := input[..|input| - 1];
      assert AllAllowed(front, unicodeAlnum) by {
        forall i | 0 <= i < |front| ensures IsAllowed(front[i], unicodeAlnum) {
          assert front[i] == input[i];
        }
      }
      SanitizeFixedPointIff(front, unicodeAlnum);
      assert input == front + [input[|input| - 1]];
    }
  }

  /** Nothing survives exactly when the input holds no allowed character. */
  lemma {:induction false} SanitizeEmptyIff(input: string, unicodeAlnum: CharTable)
    ensures Sanitize(input, unicodeAlnum) == [] <==> AllRefused(input, unicodeAlnum)
  {
    if input != [] {
      var front := input[..|input| - 1];
      SanitizeEmptyIff(front, unicodeAlnum);
      assert forall i :: 0 <= i < |front| ==> input[i] == front[i];
    }
  }

  /** A run of allowed characters passes through in front of whatever follows. */
  lemma SanitizeKeepsRun(run: string, rest: string, unicodeAlnum: CharTable)
    requires AllAllowed(run, unicodeAlnum)
    ensures Sanitize(run + rest, unicodeAlnum) == run + Sanitize(rest, unicodeAlnum)
  {
    SanitizeAppend(run, rest, unicodeAlnum);
    SanitizeFixedPointIff(run, unicodeAlnum);
  }

  /** A run of refused characters vanishes. */
  lemma SanitizeDropsRun(run: string, rest: string, unicodeAlnum: CharTable)
    requires AllRefused(run, unicodeAlnum)
    ensures Sanitize(run + rest, unicodeAlnum) == Sanitize(rest, unicodeAlnum)
  {
    SanitizeAppend(run, rest, unicodeAlnum);
    SanitizeEmptyIff(run, unicodeAlnum);
  }

  /** The output has the input's length exactly when nothing was dropped. */
  lemma {:induction false} SanitizeKeepsLengthIff(input: string, unicodeAlnum: CharTable)
    ensures |Sanitize(input, unicodeAlnum)| == |input| <==> AllAllowed(input, unicodeAlnum)
  {
    SanitizeFixedPointIff(input, unicodeAlnum);
    if input != [] {
      var front := input[..|input| - 1];
      SanitizeKeepsLengthIff(front, unicodeAlnum);
      if !AllAllowed(input, unicodeAlnum) && IsAllowed(input[|input| - 1], unicodeAlnum) {
        var i :| 0 <= i < |input| && !IsAllowed(input[i], unicodeAlnum);
        assert !IsAllowed(front[i], unicodeAlnum);
      }
    }
  }

  /** Sanitising twice is sanitising once. */
  lemma SanitizeIdempotent(input: string, unicodeAlnum: CharTable)
    ensures Sanitize(Sanitize(input, unicodeAlnum), unicodeAlnum) == Sanitize(input, unicodeAlnum)
  {
    SanitizeFixedPointIff(Sanitize(input, unicodeAlnum), unicodeAlnum);
  }

  /** Sanitising never makes text longer in bytes either. */
  lemma {:induction false} SanitizeShrinksBytes(input: string, unicodeAlnum: CharTable)
    ensures Utf8Len(Sanitize(input, unicodeAlnum)) <= Utf8Len(input)
  {
    if input != [] {
      var front, last := input[..|input| - 1], input[|input| - 1];
      SanitizeShrinksBytes(front, unicodeAlnum);
      assert input == front + [last];
      Utf8LenAppend(front, [last]);
      Utf8LenAppend(Sanitize(front, unicodeAlnum), Kept(last, unicodeAlnum));
    }
  }

  // ---------------------------------------------------------------------
  // greet
  // ---------------------------------------------------------------------

  /** `name` has a character that survives sanitising and is not whitespace. */
  predicate HasVisibleAllowed(name: string, unicodeAlnum: CharTable) {
    exists i :: 0 <= i < |name| && IsAllowed(name[i], unicodeAlnum) && !IsWhitespace(name[i])
  }

  /**
   * The sanitised text is blank (all whitespace, or empty) exactly when the
   * input holds no allowed non-whitespace character.
   */
  lemma {:induction false} SanitizedBlankIff(input: string, unicodeAlnum: CharTable)
    ensures AllWhitespace(Sanitize(input, unicodeAlnum)) <==> !HasVisibleAllowed(input, unicodeAlnum)
  {
    if input != [] {
      var front, last := input[..|input| - 1], input[|input| - 1];
      SanitizedBlankIff(front, unicodeAlnum);
      var kept := Sanitize(front, unicodeAlnum);
      var r := Sanitize(input, unicodeAlnum);
      if IsAllowed(last, unicodeAlnum) {
        assert r == kept + [last];
        assert r[|r| - 1] == last;
        assert forall i :: 0 <= i < |kept| ==> r[i] == kept[i];
      } else {
        assert r == kept;
      }
      if HasVisibleAllowed(front, unicodeAlnum) {
        var i :| 0 <= i < |front| && IsAllowed(front[i], unicodeAlnum) && !IsWhitespace(front[i]);
        assert input[i] == front[i];
      }
      if HasVisibleAllowed(input, unicodeAlnum) && !(IsAllowed(last, unicodeAlnum) && !IsWhitespace(last)) {
        var i :| 0 <= i < |input| && IsAllowed(input[i], unicodeAlnum) && !IsWhitespace(input[i]);
        assert front[i] == input[i];
      }
    }
  }

  /**
   * `greet`: the length check first, then sanitising, then the blank check,
   * then the greeting.
   */
  function Greet(name: string, unicodeAlnum: CharTable): (r: Result<string>)
    // A name over 100 bytes gets the length error whatever it holds.
    ensures Utf8Len(name) > MAX_NAME_LENGTH ==> r == Err(LengthError(MAX_NAME_LENGTH))
    // Otherwise a name with no allowed non-whitespace character gets the empty-name error.
    ensures Utf8Len(name) <= MAX_NAME_LENGTH && !HasVisibleAllowed(name, unicodeAlnum) ==>
              r == Err(EMPTY_NAME_ERROR)
    // Otherwise the greeting wraps the sanitised name.
    ensures Utf8Len(name) <= MAX_NAME_LENGTH && HasVisibleAllowed(name, unicodeAlnum) ==>
              r == Ok(GREETING_PREFIX + Sanitize(name, unicodeAlnum) + GREETING_SUFFIX)
    ensures r.Ok? <==> Utf8Len(name) <= MAX_NAME_LENGTH && HasVisibleAllowed(name, unicodeAlnum)
  {
    TrimIsEmptyIff(Sanitize(name, unicodeAlnum));
    SanitizedBlankIff(name, unicodeAlnum);
    var _ :- ValidateStringLength(name, MAX_NAME_LENGTH);
    var sanitizedName := Sanitize(name, unicodeAlnum);
    if Trim(sanitizedName) == [] then Err(EMPTY_NAME_ERROR)
    else Ok(GREETING_PREFIX + sanitizedName + GREETING_SUFFIX)
  }

  /** The characters a greeting may hold: the whitelist plus the template's punctuation. */
  predicate InGreetingAlphabet(c: char, unicodeAlnum: CharTable) {
    IsAllowed(c, unicodeAlnum) || c == ',' || c == '!'
  }

  lemma GreetingPrefixAlphabet(unicodeAlnum: CharTable)
    ensures forall i :: 0 <= i < |GREETING_PREFIX| ==> InGreetingAlphabet(GREETING_PREFIX[i], unicodeAlnum)
  {
  }

  lemma GreetingSuffixAlphabet(unicodeAlnum: CharTable)
    ensures forall i :: 0 <= i < |GREETING_SUFFIX| ==> InGreetingAlphabet(GREETING_SUFFIX[i], unicodeAlnum)
  {
  }

  /** Wrapping a filtered name in the template adds only the template's punctuation. */
  lemma {:induction false} WrappedAlphabet(s: string, unicodeAlnum: CharTable)
    requires AllAllowed(s, unicodeAlnum)
    ensures var g := GREETING_PREFIX + s + GREETING_SUFFIX;
            forall i :: 0 <= i < |g| ==> InGreetingAlphabet(g[i], unicodeAlnum)
  {
    var g := GREETING_PREFIX + s + GREETING_SUFFIX;
    var p := |GREETING_PREFIX|;
    GreetingPrefixAlphabet(unicodeAlnum);
    GreetingSuffixAlphabet(unicodeAlnum);
    forall i | 0 <= i < |g| ensures InGreetingAlphabet(g[i], unicodeAlnum) {
      if i < p {
        assert g[i] == GREETING_PREFIX[i];
      } else if i < p + |s| {
        assert g[i] == s[i - p];
      } else {
        assert g[i] == GREETING_SUFFIX[i - p - |s|];
      }
    }
  }

  /**
   * A greeting is the template around the filtered name, so it holds only
   * whitelisted characters plus the template's `,` and `!`.
   */
  lemma GreetingAlphabet(name: string, unicodeAlnum: CharTable)
    ensures Greet(name, unicodeAlnum).Ok? ==>
              var g := Greet(name, unicodeAlnum).value;
              |g| == |GREETING_PREFIX| + |Sanitize(name, unicodeAlnum)| + |GREETING_SUFFIX| &&
              AllAllowed(g[|GREETING_PREFIX|..|g| - |GREETING_SUFFIX|], unicodeAlnum) &&
              forall i :: 0 <= i < |g| ==> InGreetingAlphabet(g[i], unicodeAlnum)
  {
    if Greet(name, unicodeAlnum).Ok? {
      var s := Sanitize(name, unicodeAlnum);
      var g := GREETING_PREFIX + s + GREETING_SUFFIX;
      assert Greet(name, unicodeAlnum).value == g;
      assert g[|GREETING_PREFIX|..|g| - |GREETING_SUFFIX|] == s;
      WrappedAlphabet(s, unicodeAlnum);
    }
  }

  /** A name made only of allowed characters is echoed verbatim in its greeting. */
  lemma GreetEchoesCleanName(name: string, unicodeAlnum: CharTable)
    requires AllAllowed(name, unicodeAlnum)
    ensures Greet(name, unicodeAlnum).Ok? ==>
              Contains(Greet(name, unicodeAlnum).value, name) &&
              Contains(Greet(name, unicodeAlnum).value, "TIPTV")
  {
    SanitizeFixedPointIff(name, unicodeAlnum);
    GreetingContains(name);
  }

  /** The template holds the name right after its prefix, and "TIPTV" just before its final `.`. */
  lemma GreetingContains(name: string)
    ensures var g := GREETING_PREFIX + name + GREETING_SUFFIX;
            Contains(g, name) && Contains(g, "TIPTV")
  {
    var g := GREETING_PREFIX + name + GREETING_SUFFIX;
    var p := |GREETING_PREFIX|;
    assert g[p..p + |name|] == name;
    ContainsAt(g, name, p);
    var at := |g| - |"TIPTV."|;
    assert g[at..at + 5] == "TIPTV";
    ContainsAt(g, "TIPTV", at);
  }

  /**
   * No text that starts with a refused character (such as `<script>`) can
   * appear in a greeting, unless it starts with the template's `,` or `!`.
   */
  lemma GreetOmitsRefusedText(name: string, unicodeAlnum: CharTable, needle: string)
    requires needle != [] && !IsAllowed(needle[0], unicodeAlnum)
    requires needle[0] != ',' && needle[0] != '!'
    ensures Greet(name, unicodeAlnum).Ok? ==> !Contains(Greet(name, unicodeAlnum).value, needle)
  {
    var r := Greet(name, unicodeAlnum);
    if r.Ok? && Contains(r.value, needle) {
      GreetingAlphabet(name, unicodeAlnum);
      ContainsFirstChar(r.value, needle);
    }
  }
}
