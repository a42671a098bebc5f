/**
 The run configuration of the line search and how it is resolved from the
 process arguments (`Config::build` and `Config::check_args_count`).

 The two pieces of process state the resolver consults are parameters here:
 `stdinIsTty` says whether standard input is an interactive terminal, and
 `ignoreCaseVarPresent` says whether the environment variable `IGNORE_CASE`
 is set to a valid-Unicode value, that is, whether `env::var` succeeds.
 */
module Configuration {
  import opened Decimal

  datatype Option<+T> = None | Some(value: T)

  /** Success with a value, or failure with a message, as Rust's
      `Result<T, String>`. */
  datatype Result<+T> = Ok(value: T) | Err(error: string)

  /** Where the text to search comes from. */
  datatype TextSource = Stdin | File(path: string)

  datatype Config = Config(query: string, ignoreCase: bool, source: TextSource)

  const MissingPrefix: string := "not enough arguments. Required "
  const MissingMiddle: string := " but got "

  /** The message of a failed argument-count check. It states both counts:
      they can be read back from it. */
  function ArgCountMessage(required: nat, actual: nat): (m: string)
    ensures ParseArgCountMessage(m) == Some((required, actual))
  {
    var d1, d2 := FromNat(required), FromNat(actual);
    NumeralsReadable(d1, d2);
    ToNatFromNat(required);
    ToNatFromNat(actual);
    MissingPrefix + d1 + MissingMiddle + d2
  }

  /** Reads the required and the actual count back out of an
      argument-count message. */
  function ParseArgCountMessage(msg: string): Option<(nat, nat)> {
    if !(MissingPrefix <= msg) then
      None
    else
      var rest := msg[|MissingPrefix|..];
      var k := DigitRun(rest);
      var after := rest[k..];
      if !IsNumeral(rest[..k]) || !(MissingMiddle <= after) then
        None
      else
        var tail := after[|MissingMiddle|..];
        if !IsNumeral(tail) then None else Some((ToNat(rest[..k]), ToNat(tail)))
  }

  /** Whatever the parser accepts is exactly the message of the counts it
      returns: no other spelling of the numbers gets through. */
  lemma ParsedMessageIsExact(msg: string)
    requires ParseArgCountMessage(msg).Some?
    ensures msg == ArgCountMessage(ParseArgCountMessage(msg).value.0, ParseArgCountMessage(msg).value.1)
  {
    var rest := msg[|MissingPrefix|..];
    var k := DigitRun(rest);
    var d1, after := rest[..k], rest[k..];
    var tail := after[|MissingMiddle|..];
    assert msg == MissingPrefix + d1 + MissingMiddle + tail by {
      assert after == MissingMiddle + tail;
      assert rest == d1 + after;
      assert msg == MissingPrefix + rest;
    }
    MessageOfNumerals(d1, tail);
  }

  /** The message of the numbers two numerals denote is spelled with those
      numerals. */
  lemma MessageOfNumerals(d1: string, d2: string)
    requires IsNumeral(d1) && IsNumeral(d2)
    ensures ArgCountMessage(ToNat(d1), ToNat(d2)) == MissingPrefix + d1 + MissingMiddle + d2
  {
    FromNatToNat(d1);
    FromNatToNat(d2);
  }

  /** The parser and the message determine each other: a string parses to
      two counts exactly when it is the message of those counts. */
  lemma ArgCountMessageExact(msg: string, required: nat, actual: nat)
    ensures ParseArgCountMessage(msg) == Some((required, actual)) <==> msg == ArgCountMessage(required, actual)
  {
    if ParseArgCountMessage(msg) == Some((required, actual)) {
      ParsedMessageIsExact(msg);
    }
  }

  /** Two numerals placed in the message shape are read back as the
      numbers they denote. */
  lemma NumeralsReadable(d1: string, d2: string)
    requires IsNumeral(d1) && IsNumeral(d2)
    ensures ParseArgCountMessage(MissingPrefix + d1 + MissingMiddle + d2) == Some((ToNat(d1), ToNat(d2)))
  {
    var after := MissingMiddle + d2;
    var rest := d1 + after;
    var msg := MissingPrefix + rest;
    assert MissingPrefix + d1 + MissingMiddle + d2 == msg;
    Split(MissingPrefix, rest);
    DigitRunOf(d1, after);
    Split(d1, after);
    Split(MissingMiddle, d2);
  }

  /** A concatenation starts with its first part and drops back to its
      second. */
  lemma Split<T>(p: seq<T>, x: seq<T>)
    ensures p <= p + x && (p + x)[..|p|] == p && (p + x)[|p|..] == x
  {
  }

  /** Fails, with a message naming both counts, exactly when there are
      fewer than `required` arguments. */
  function CheckArgsCount(args: seq<string>, required: nat): (r: Result<()>)
    ensures r.Ok? <==> required <= |args|
    ensures r.Err? ==> ParseArgCountMessage(r.error) == Some((required, |args|))
  {
    if |args| < required then
      Err(ArgCountMessage(required, |args|))
    else
      Ok(())
  }

  /** Resolves the configuration: with standard input redirected the text
      comes from standard input and the program name and the query are
      needed; with standard input a terminal the text comes from the file
      named by the third argument. Further arguments are ignored. */
  function Build(args: seq<string>, stdinIsTty: bool, ignoreCaseVarPresent: bool): (r: Result<Config>)
    ensures r.Ok? <==> |args| >= (if stdinIsTty then 3 else 2)
    ensures r.Ok? ==> r.value.query == args[1] && r.value.ignoreCase == ignoreCaseVarPresent
    ensures r.Ok? ==> (r.value.source.Stdin? <==> !stdinIsTty)
    ensures r.Ok? && stdinIsTty ==> r.value.source == File(args[2])
    ensures r.Err? ==> ParseArgCountMessage(r.error) == Some((if stdinIsTty then 3 else 2, |args|))
  {
    var source: Result<TextSource> :=
      if !stdinIsTty then
        match CheckArgsCount(args, 2)
        case Err(e) => Err(e)
        case Ok(_) => Ok(Stdin)
      else
        match CheckArgsCount(args, 3)
        case Err(e) => Err(e)
        case Ok(_) => Ok(File(args[2]));
    match source
    case Err(e) => Err(e)
    case Ok(s) => Ok(Config(args[1], ignoreCaseVarPresent, s))
  }

  /** Arguments after the ones the chosen source needs change nothing. */
  lemma BuildIgnoresExtraArguments(args: seq<string>, extra: seq<string>, stdinIsTty: bool, ignoreCaseVarPresent: bool)
    requires Build(args, stdinIsTty, ignoreCaseVarPresent).Ok?
    ensures Build(args + extra, stdinIsTty, ignoreCaseVarPresent) == Build(args, stdinIsTty, ignoreCaseVarPresent)
  {
    assert (args + extra)[1] == args[1];
    if stdinIsTty {
      assert (args + extra)[2] == args[2];
    }
  }

  /** Reading from a file needs strictly more arguments than reading
      standard input; both read the same query. */
  lemma BuildFileNeedsMore(args: seq<string>, ignoreCaseVarPresent: bool)
    ensures Build(args, true, ignoreCaseVarPresent).Ok? ==> Build(args, false, ignoreCaseVarPresent).Ok?
    ensures |args| == 2 ==> Build(args, false, ignoreCaseVarPresent).Ok? && Build(args, true, ignoreCaseVarPresent).Err?
    ensures Build(args, true, ignoreCaseVarPresent).Ok? ==>
      Build(args, true, ignoreCaseVarPresent).value.query == Build(args, false, ignoreCaseVarPresent).value.query
  {
  }
}
