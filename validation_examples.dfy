/**
 * The unit tests that accompany the validation helpers, stated as lemmas
 * that hold for every Unicode alphanumeric table.
 *
 * Each test input is a parameter pinned by a precondition rather than a
 * literal written into the contract: the verifier unfolds recursive
 * functions such as `Sanitize` and `Utf8Len` on a literal argument as far
 * as it goes, which is slow for inputs of this size. The longer inputs are
 * therefore worked through in small steps, one lemma per step: their split
 * into allowed and refused runs, their ASCII-ness, and the join of the kept
 * runs.
 */
module ValidationExamples {
  import opened Results
  import opened RustText
  import opened Validation

  // ---------------------------------------------------------------------
  // test_validate_string_length
  // ---------------------------------------------------------------------

  /** Inputs within the bound pass, the one of exactly ten bytes included. */
  lemma ValidateAcceptsExamples(short: string, exact: string)
    requires short == "short" && exact == "exactly10!"
    ensures ValidateStringLength(short, 10) == Ok(())
    ensures ValidateStringLength(exact, 10) == Ok(())
  {
    assert AllAscii(short) && AllAscii(exact);
    ValidateBoundsCharacters(short, 10);
    ValidateBoundsCharacters(exact, 10);
  }

  /** An input over the bound fails with the length message. */
  lemma ValidateRejectsExample(long: string)
    requires long == "too long string"
    ensures ValidateStringLength(long, 5) == Err(LengthError(5))
  {
    ValidateBoundsCharacters(long, 5);
  }

  // ---------------------------------------------------------------------
  // test_sanitize_string
  // ---------------------------------------------------------------------

  /** Text made of allowed characters is kept whole. */
  lemma SanitizeKeepsPlainTextExamples(plain: string, dashed: string, unicodeAlnum: CharTable)
    requires plain == "normal text" && dashed == "test-name_123"
    ensures Sanitize(plain, unicodeAlnum) == plain
    ensures Sanitize(dashed, unicodeAlnum) == dashed
  {
    SanitizeFixedPointIff(plain, unicodeAlnum);
    SanitizeFixedPointIff(dashed, unicodeAlnum);
  }

  /** An allowed run followed by a refused run keeps only the first. */
  lemma KeepThenDrop(keep: string, drop: string, rest: string, unicodeAlnum: CharTable)
    requires AllAllowed(keep, unicodeAlnum) && AllRefused(drop, unicodeAlnum)
    ensures Sanitize(keep + drop + rest, unicodeAlnum) == keep + Sanitize(rest, unicodeAlnum)
  {
    assert keep + drop + rest == keep + (drop + rest);
    SanitizeKeepsRun(keep, drop + rest, unicodeAlnum);
    SanitizeDropsRun(drop, rest, unicodeAlnum);
  }

  /** Brackets and symbols after a word are stripped. */
  lemma SanitizeStripsSymbolsExamples(brackets: string, symbols: string, unicodeAlnum: CharTable)
    requires brackets == "test<>{}[]" && symbols == "test@#$%"
    ensures Sanitize(brackets, unicodeAlnum) == "test"
    ensures Sanitize(symbols, unicodeAlnum) == "test"
  {
    assert brackets == "test" + "<>{}[]" + [];
    KeepThenDrop("test", "<>{}[]", [], unicodeAlnum);
    assert symbols == "test" + "@#$%" + [];
    KeepThenDrop("test", "@#$%", [], unicodeAlnum);
  }

  // ---------------------------------------------------------------------
  // test_greet_with_name, test_greet_with_empty_name, test_greet_with_long_name
  // ---------------------------------------------------------------------

  /** A name of allowed ASCII characters that fits and does not start blank is greeted verbatim. */
  lemma GreetCleanName(name: string, unicodeAlnum: CharTable)
    requires AllAllowed(name, unicodeAlnum) && AllAscii(name) && |name| <= MAX_NAME_LENGTH
    requires name != [] && !IsWhitespace(name[0])
    ensures Greet(name, unicodeAlnum) == Ok("Hello, " + name + "! Welcome to TIPTV.")
  {
    SanitizeFixedPointIff(name, unicodeAlnum);
    Utf8LenIsCountIffAscii(name);
    assert IsAllowed(name[0], unicodeAlnum);
  }

  /** A plain name is greeted, and the greeting holds the name and the application's name. */
  lemma GreetWithNameExample(name: string, unicodeAlnum: CharTable)
    requires name == "Test User"
    ensures Greet(name, unicodeAlnum) == Ok("Hello, " + name + "! Welcome to TIPTV.")
    ensures Contains(Greet(name, unicodeAlnum).value, name)
    ensures Contains(Greet(name, unicodeAlnum).value, "TIPTV")
  {
    GreetCleanName(name, unicodeAlnum);
    GreetingContains(name);
  }

  /** The empty-name message says what is wrong. */
  lemma EmptyErrorMentionsEmpty()
    ensures Contains(EMPTY_NAME_ERROR, "empty")
  {
    assert EMPTY_NAME_ERROR[15..20] == "empty";
    ContainsAt(EMPTY_NAME_ERROR, "empty", 15);
  }

  /** The empty name is refused as empty. */
  lemma GreetWithEmptyNameExample(name: string, unicodeAlnum: CharTable)
    requires name == []
    ensures Greet(name, unicodeAlnum) == Err(EMPTY_NAME_ERROR)
    ensures Contains(Greet(name, unicodeAlnum).error, "empty")
  {
    assert !HasVisibleAllowed(name, unicodeAlnum);
    EmptyErrorMentionsEmpty();
  }

  /** 101 copies of `a` exceed the limit, and the message says so. */
  lemma GreetWithLongNameExample(name: string, unicodeAlnum: CharTable)
    requires name == seq(101, _ => 'a')
    ensures Greet(name, unicodeAlnum) == Err("Input exceeds maximum length of 100 characters")
    ensures Contains(Greet(name, unicodeAlnum).error, "maximum length")
  {
    Utf8LenRepeat('a', 101);
    LengthErrorForNames();
    LengthErrorMentionsMaximum(MAX_NAME_LENGTH);
  }

  // ---------------------------------------------------------------------
  // test_greet_sanitizes_input
  // ---------------------------------------------------------------------

  /** Filtering six allowed runs separated by five refused runs joins the allowed runs. */
  lemma SanitizeAlternatingRuns(
    k1: string, d1: string, k2: string, d2: string, k3: string, d3: string,
    k4: string, d4: string, k5: string, d5: string, k6: string, unicodeAlnum: CharTable)
    requires AllAllowed(k1, unicodeAlnum) && AllAllowed(k2, unicodeAlnum) && AllAllowed(k3, unicodeAlnum)
    requires AllAllowed(k4, unicodeAlnum) && AllAllowed(k5, unicodeAlnum) && AllAllowed(k6, unicodeAlnum)
    requires AllRefused(d1, unicodeAlnum) && AllRefused(d2, unicodeAlnum) && AllRefused(d3, unicodeAlnum)
    requires AllRefused(d4, unicodeAlnum) && AllRefused(d5, unicodeAlnum)
    ensures Sanitize(k1 + d1 + (k2 + d2 + (k3 + d3 + (k4 + d4 + (k5 + d5 + k6)))), unicodeAlnum)
         == k1 + (k2 + (k3 + (k4 + (k5 + k6))))
  {
    var t := unicodeAlnum;
    KeepThenDrop(k1, d1, k2 + d2 + (k3 + d3 + (k4 + d4 + (k5 + d5 + k6))), t);
    KeepThenDrop(k2, d2, k3 + d3 + (k4 + d4 + (k5 + d5 + k6)), t);
    KeepThenDrop(k3, d3, k4 + d4 + (k5 + d5 + k6), t);
    KeepThenDrop(k4, d4, k5 + d5 + k6, t);
    KeepThenDrop(k5, d5, k6, t);
    SanitizeFixedPointIff(k6, t);
  }

  /** The test input, cut into its allowed and refused runs. */
  lemma ScriptNameRuns(name: string)
    requires name == "Test<script>alert('xss')</script>User"
    ensures name == "Test" + "<" + ("script" + ">" + ("alert" + "('" + ("xss" + "')</" + ("script" + ">" + "User"))))
  {
  }

  /** The test input is ASCII. */
  lemma ScriptNameAscii(name: string)
    requires name == "Test<script>alert('xss')</script>User"
    ensures AllAscii(name)
  {
  }

  /** Being ASCII, the test input fits the limit by its character count. */
  lemma ScriptNameFits(name: string)
    requires name == "Test<script>alert('xss')</script>User"
    ensures Utf8Len(name) <= MAX_NAME_LENGTH
  {
    ScriptNameAscii(name);
    Utf8LenIsCountIffAscii(name);
  }

  /** Filtering the runs of the test input. */
  lemma SanitizeScriptRuns(unicodeAlnum: CharTable)
    ensures Sanitize("Test" + "<" + ("script" + ">" + ("alert" + "('" + ("xss" + "')</" + ("script" + ">" + "User")))), unicodeAlnum)
         == "Test" + ("script" + ("alert" + ("xss" + ("script" + "User"))))
  {
    SanitizeAlternatingRuns("Test", "<", "script", ">", "alert", "('", "xss", "')</", "script", ">", "User", unicodeAlnum);
  }

  /** The kept runs, joined. */
  lemma ScriptCleanJoined()
    ensures "Test" + ("script" + ("alert" + ("xss" + ("script" + "User")))) == "TestscriptalertxssscriptUser"
  {
  }

  /** The filtering step of the test: markup and quotes go, letters stay. */
  lemma SanitizeScriptExample(name: string, unicodeAlnum: CharTable)
    requires name == "Test<script>alert('xss')</script>User"
    ensures Sanitize(name, unicodeAlnum) == "TestscriptalertxssscriptUser"
  {
    ScriptNameRuns(name);
    SanitizeScriptRuns(unicodeAlnum);
    ScriptCleanJoined();
  }

  /** The test input is greeted with its filtered form. */
  lemma GreetScriptExample(name: string, unicodeAlnum: CharTable)
    requires name == "Test<script>alert('xss')</script>User"
    ensures Greet(name, unicodeAlnum) == Ok("Hello, " + "TestscriptalertxssscriptUser" + "! Welcome to TIPTV.")
  {
    SanitizeScriptExample(name, unicodeAlnum);
    ScriptNameFits(name);
    assert IsAllowed(name[0], unicodeAlnum) && !IsWhitespace(name[0]);
  }

  /** The greeting for the test input holds the filtered name and no script tag. */
  lemma GreetSanitizesInputExample(name: string, unicodeAlnum: CharTable)
    requires name == "Test<script>alert('xss')</script>User"
    ensures Greet(name, unicodeAlnum).Ok?
    ensures !Contains(Greet(name, unicodeAlnum).value, "<script>")
    ensures !Contains(Greet(name, unicodeAlnum).value, "</script>")
    ensures Contains(Greet(name, unicodeAlnum).value, "TestscriptalertxssscriptUser")
  {
    GreetScriptExample(name, unicodeAlnum);
    GreetingContains("TestscriptalertxssscriptUser");
    GreetOmitsRefusedText(name, unicodeAlnum, "<script>");
    GreetOmitsRefusedText(name, unicodeAlnum, "</script>");
  }
}
