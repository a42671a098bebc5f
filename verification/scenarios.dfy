/**
 The repository's two worked searches, an example of line splitting and a
 few argument resolutions, proved about the model.
 */
module Scenarios {
  import opened Text
  import opened LineSearch
  import opened Configuration

  /** The texts of the two worked searches, one line feed between lines and
      none after the last. */
  const Productive: string := "Rust:" + "\n" + ("safe, fast, productive." + "\n" + ("Pick three." + "\n" + "Duct tape."))
  const Trust: string := "Rust:" + "\n" + ("safe, fast, productive." + "\n" + ("Pick three." + "\n" + "Trust me."))

  /** A plain line and a line feed in front of a text add that line in
      front of the text's lines. */
  lemma LinesPrepend(line: string, s: string, ls: seq<string>)
    requires IsPlainLine(line) && Lines(s) == ls
    ensures Lines(line + "\n" + s) == [line] + ls
  {
    LinesCons(line, s);
    assert StripCarriageReturn(line) == line;
  }

  lemma ConsFour<T>(a: T, b: T, c: T, d: T)
    ensures [a] + ([b] + ([c] + [d])) == [a, b, c, d]
  {
  }

  /** A text of four lines splits into those four lines. */
  lemma LinesOfFour(a: string, b: string, c: string, d: string)
    requires IsPlainLine(a) && IsPlainLine(b) && IsPlainLine(c)
    requires 0 < |d| && '\n' !in d
    ensures Lines(a + "\n" + (b + "\n" + (c + "\n" + d))) == [a, b, c, d]
  {
    var s3 := c + "\n" + d;
    var s2 := b + "\n" + s3;
    LinesOfLine(d);
    LinesPrepend(c, d, [d]);
    LinesPrepend(b, s3, [c] + [d]);
    LinesPrepend(a, s2, [b] + ([c] + [d]));
    ConsFour(a, b, c, d);
  }

  lemma ProductiveLines()
    ensures Lines(Productive) == ["Rust:", "safe, fast, productive.", "Pick three.", "Duct tape."]
  {
    LinesOfFour("Rust:", "safe, fast, productive.", "Pick three.", "Duct tape.");
  }

  lemma TrustLines()
    ensures Lines(Trust) == ["Rust:", "safe, fast, productive.", "Pick three.", "Trust me."]
  {
    LinesOfFour("Rust:", "safe, fast, productive.", "Pick three.", "Trust me.");
  }

  /** Line endings as `str::lines` treats them: "\r\n" ends a line like
      "\n" does, an empty line between two line feeds is kept, and a
      carriage return ending an unterminated last line stays in it. */
  lemma LineEndingsScenario()
    ensures Lines("foo" + "\r" + "\n" + ("bar" + "\n" + ("" + "\n" + "baz\r"))) == ["foo", "bar", "", "baz\r"]
  {
    LinesOfLine("baz\r");
    LinesPrepend("", "baz\r", ["baz\r"]);
    LinesPrepend("bar", "" + "\n" + "baz\r", [""] + ["baz\r"]);
    LinesCons("foo" + "\r", "bar" + "\n" + ("" + "\n" + "baz\r"));
    assert StripCarriageReturn("foo" + "\r") == "foo";
    ConsFour("foo", "bar", "", "baz\r");
  }

  /** Searching four lines is searching each of them. */
  lemma SelectOfFour(a: string, b: string, c: string, d: string, query: string, ignoreCase: bool)
    ensures Select([a, b, c, d], query, ignoreCase)
         == Keep(a, query, ignoreCase) + Keep(b, query, ignoreCase)
          + Keep(c, query, ignoreCase) + Keep(d, query, ignoreCase)
  {
    assert [a, b, c, d] == [a, b, c] + [d];
    assert [a, b, c] == [a, b] + [c];
    assert [a, b] == [a] + [b];
    SelectAppend([a, b, c], [d], query, ignoreCase);
    SelectAppend([a, b], [c], query, ignoreCase);
    SelectAppend([a], [b], query, ignoreCase);
  }

  /** Which of the lines the case-sensitive search for "duct" keeps. */
  lemma DuctKeeps()
    ensures Keep("Rust:", "duct", false) == []
    ensures Keep("safe, fast, productive.", "duct", false) == ["safe, fast, productive."]
    ensures Keep("Pick three.", "duct", false) == []
    ensures Keep("Duct tape.", "duct", false) == []
  {
    CharAbsent("duct", "Rust:", 0);
    CharAbsent("duct", "Pick three.", 0);
    CharAbsent("duct", "Duct tape.", 0);
    assert OccursAt("duct", "safe, fast, productive.", 15);
  }

  /** Case-sensitive search for "duct" keeps only the line that spells it in
      small letters, not "Duct tape.". */
  lemma CaseSensitiveScenario()
    ensures Select(Lines(Productive), "duct", false) == ["safe, fast, productive."]
  {
    ProductiveLines();
    SelectOfFour("Rust:", "safe, fast, productive.", "Pick three.", "Duct tape.", "duct", false);
    DuctKeeps();
  }

  /** "safe, fast, productive." holds no "rust": its only 'r' is followed by
      an 'o'. */
  lemma NoRustInProductive()
    ensures !IsSubstring("rust", "safe, fast, productive.")
  {
    assert "safe, fast, productive." == "safe, fast, p" + "roductive.";
    SkipToCandidate("rust", "safe, fast, p", "roductive.");
    assert "roductive."[1] == 'o';
    SubstringOfTail("rust", "roductive.");
    assert "oductive." + "" == "roductive."[1..];
    SkipToCandidate("rust", "oductive.", "");
  }

  /** The lowercase forms the case-insensitive search compares. */
  lemma LowercaseTrust()
    ensures Lower("rUsT") == "rust"
    ensures Lower("Rust:") == "rust:"
    ensures Lower("safe, fast, productive.") == "safe, fast, productive."
    ensures Lower("Pick three.") == "pick three."
    ensures Lower("Trust me.") == "trust me."
  {
    LowercaseShort();
    LowercasePick();
    LowerNormalises("safe, fast, productive.");
  }

  lemma LowercasePick()
    ensures Lower("Pick three.") == "pick three."
  {
  }

  lemma LowercaseShort()
    ensures Lower("rUsT") == "rust"
    ensures Lower("Rust:") == "rust:"
    ensures Lower("Trust me.") == "trust me."
  {
  }

  /** Which of the lines the case-insensitive search for "rUsT" keeps. */
  lemma RustKeeps()
    ensures Keep("Rust:", "rUsT", true) == ["Rust:"]
    ensures Keep("safe, fast, productive.", "rUsT", true) == []
    ensures Keep("Pick three.", "rUsT", true) == []
    ensures Keep("Trust me.", "rUsT", true) == ["Trust me."]
  {
    LowercaseTrust();
    assert OccursAt("rust", "rust:", 0);
    assert OccursAt("rust", "trust me.", 1);
    CharAbsent("rust", "pick three.", 1);
    NoRustInProductive();
  }

  /** Case-insensitive search for "rUsT" keeps "Rust:" and "Trust me.",
      in that order and with their own capitals. */
  lemma CaseInsensitiveScenario()
    ensures Select(Lines(Trust), "rUsT", true) == ["Rust:", "Trust me."]
  {
    TrustLines();
    SelectOfFour("Rust:", "safe, fast, productive.", "Pick three.", "Trust me.", "rUsT", true);
    RustKeeps();
  }

  /** The same query with case respected keeps none of those lines. */
  lemma CaseRespectedScenario()
    ensures Select(Lines(Trust), "rUsT", false) == []
  {
    TrustLines();
    SelectOfFour("Rust:", "safe, fast, productive.", "Pick three.", "Trust me.", "rUsT", false);
    CharAbsent("rUsT", "Rust:", 1);
    CharAbsent("rUsT", "safe, fast, productive.", 1);
    CharAbsent("rUsT", "Pick three.", 1);
    CharAbsent("rUsT", "Trust me.", 1);
  }

  /** The searches above, run through the search itself. */
  method SearchScenarios() returns (sensitive: seq<string>, insensitive: seq<string>)
    ensures sensitive == ["safe, fast, productive."]
    ensures insensitive == ["Rust:", "Trust me."]
  {
    sensitive := Search(Productive, Config("duct", false, Stdin));
    CaseSensitiveScenario();
    insensitive := Search(Trust, Config("rUsT", true, Stdin));
    CaseInsensitiveScenario();
  }

  /** With standard input redirected a program name and a query suffice;
      with the program name alone resolution fails either way. */
  lemma BuildScenarios(ignoreCaseVarPresent: bool)
    ensures Build(["prog", "query"], false, ignoreCaseVarPresent) == Ok(Config("query", ignoreCaseVarPresent, Stdin))
    ensures Build(["prog", "query", "poem.txt"], true, ignoreCaseVarPresent) == Ok(Config("query", ignoreCaseVarPresent, File("poem.txt")))
    ensures Build(["prog"], false, ignoreCaseVarPresent).Err?
    ensures Build(["prog"], true, ignoreCaseVarPresent).Err?
    ensures Build(["prog", "query"], true, ignoreCaseVarPresent).Err?
  {
  }
}
