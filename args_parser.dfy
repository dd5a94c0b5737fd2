/** The patcher's command line: a list of options, three of which take the next
    token as their value. An unknown option, or a value-taking option with no
    token after it, is an ArgumentException, modelled as a failure carrying the
    exception's message. */
module ArgsParser {
  import opened Wrappers
  import opened Text

  /** The values the command line sets; None stands for a property left null. */
  datatype Options = Options(dataPath: Option<string>, outputPath: Option<string>,
                             patcherFile: Option<string>, skipTimestampCheck: bool,
                             skipHashCheck: bool, testMode: bool)

  const Defaults: Options := Options(None, None, None, false, false, false)

  /** The token at `index`, taken as the value of `optionName` whatever it looks
      like; there is none past the end of the command line. */
  function GetArgValue(args: seq<string>, index: nat, optionName: string): (r: Result<string, string>)
    ensures r.Success? <==> index < |args|
    ensures r.Success? ==> r.value == args[index]
    ensures r.Failure? ==> r.error == "Expected value after " + optionName
  {
    if index >= |args| then Failure("Expected value after " + optionName) else Success(args[index])
  }

  /** The output written next to the data file: a ".win" extension, in any case,
      is replaced by ".patched.win", and any other name gets it appended. */
  function DerivedOutput(dataPath: string): (out: string)
    ensures |out| >= 12 && out[|out| - 12..] == ".patched.win"
    ensures EndsWithIgnoreCase(dataPath, ".win") ==> out[..|out| - 12] == dataPath[..|dataPath| - 4]
    ensures !EndsWithIgnoreCase(dataPath, ".win") ==> out[..|out| - 12] == dataPath
  {
    if EndsWithIgnoreCase(dataPath, ".win") then dataPath[..|dataPath| - 4] + ".patched.win"
    else dataPath + ".patched.win"
  }

  /** The options that take a value, with the name their error message uses. */
  function ValueOptionName(token: string): Option<string> {
    if token == "--data-path" then Some("--data-path")
    else if token == "--output" then Some("--output")
    else if token == "--patcher-file" then Some("--patcher")
    else None
  }

  predicate IsFlag(token: string) {
    token == "--skip-timecheck" || token == "--skip-hashcheck" || token == "--make-checks"
  }

  /** The options a flag sets. */
  function SetFlag(o: Options, token: string): Options
    requires IsFlag(token)
  {
    if token == "--skip-timecheck" then o.(skipTimestampCheck := true, skipHashCheck := true)
    else if token == "--skip-hashcheck" then o.(skipHashCheck := true)
    else o.(testMode := true)
  }

  /** The options a value-taking option sets; `outputGiven` tells whether
      "--output" occurs anywhere on the command line. */
  function SetValue(o: Options, token: string, value: string, outputGiven: bool): Options
    requires ValueOptionName(token).Some?
  {
    if token == "--data-path" then
      o.(dataPath := Some(value),
         outputPath := if outputGiven then o.outputPath else Some(DerivedOutput(value)))
    else if token == "--output" then o.(outputPath := Some(value))
    else o.(patcherFile := Some(value))
  }

  /** The tokens read from the front, each option at its turn. */
  function Run(tokens: seq<string>, o: Options, outputGiven: bool): Result<Options, string>
    decreases |tokens|
  {
    if tokens == [] then Success(o)
    else if ValueOptionName(tokens[0]).Some? then
      match GetArgValue(tokens, 1, ValueOptionName(tokens[0]).value)
      case Failure(e) => Failure(e)
      case Success(v) => Run(tokens[2..], SetValue(o, tokens[0], v, outputGiven), outputGiven)
    else if IsFlag(tokens[0]) then Run(tokens[1..], SetFlag(o, tokens[0]), outputGiven)
    else Failure("Unknown argument: " + tokens[0])
  }

  /** Arguments.Parse as a function of the command line. */
  function ParseArgs(args: seq<string>): Result<Options, string> {
    Run(args, Defaults, "--output" in args)
  }

  /** A command line that parses can be followed by more tokens: they are read
      from the options it left. */
  lemma {:induction false} RunAppend(a: seq<string>, b: seq<string>, o: Options, outputGiven: bool)
    requires Run(a, o, outputGiven).Success?
    ensures Run(a + b, o, outputGiven) == Run(b, Run(a, o, outputGiven).value, outputGiven)
    decreases |a|
  {
    if a == [] {
      assert a + b == b;
    } else if ValueOptionName(a[0]).Some? {
      assert (a + b)[0] == a[0] && (a + b)[1] == a[1];
      assert (a + b)[2..] == a[2..] + b;
      RunAppend(a[2..], b, SetValue(o, a[0], a[1], outputGiven), outputGiven);
    } else {
      assert (a + b)[0] == a[0];
      assert (a + b)[1..] == a[1..] + b;
      RunAppend(a[1..], b, SetFlag(o, a[0]), outputGiven);
    }
  }

  /** A later occurrence of a value-taking option overwrites the earlier value. */
  lemma LaterValueWins(a: seq<string>, token: string, value: string, o: Options, outputGiven: bool)
    requires Run(a, o, outputGiven).Success? && ValueOptionName(token).Some?
    ensures Run(a + [token, value], o, outputGiven) ==
      Success(SetValue(Run(a, o, outputGiven).value, token, value, outputGiven))
    ensures token == "--output" ==> Run(a + [token, value], o, outputGiven).value.outputPath == Some(value)
    ensures token == "--patcher-file" ==> Run(a + [token, value], o, outputGiven).value.patcherFile == Some(value)
  {
    RunAppend(a, [token, value], o, outputGiven);
    assert [token, value][2..] == [];
  }

  /** A flag sets its options and nothing else: "--skip-timecheck" sets both
      skip flags, "--skip-hashcheck" only the hash one, "--make-checks" the test
      mode. */
  lemma FlagSets(a: seq<string>, token: string, o: Options, outputGiven: bool)
    requires Run(a, o, outputGiven).Success? && IsFlag(token)
    ensures var before := Run(a, o, outputGiven).value;
      var after := Run(a + [token], o, outputGiven);
      after.Success? &&
      (token == "--skip-timecheck" ==> after.value == before.(skipTimestampCheck := true, skipHashCheck := true)) &&
      (token == "--skip-hashcheck" ==> after.value == before.(skipHashCheck := true)) &&
      (token == "--make-checks" ==> after.value == before.(testMode := true))
  {
    RunAppend(a, [token], o, outputGiven);
    assert [token][1..] == [];
  }

  /** A value-taking option as the last token fails, naming the option. */
  lemma ValueAtEndFails(a: seq<string>, token: string, o: Options, outputGiven: bool)
    requires Run(a, o, outputGiven).Success? && ValueOptionName(token).Some?
    ensures Run(a + [token], o, outputGiven) == Failure("Expected value after " + ValueOptionName(token).value)
  {
    RunAppend(a, [token], o, outputGiven);
  }

  /** A token that is no option, where an option is expected, fails whatever
      follows it. */
  lemma UnknownFails(a: seq<string>, token: string, b: seq<string>, o: Options, outputGiven: bool)
    requires Run(a, o, outputGiven).Success? && ValueOptionName(token).None? && !IsFlag(token)
    ensures Run(a + [token] + b, o, outputGiven) == Failure("Unknown argument: " + token)
  {
    assert a + [token] + b == a + ([token] + b);
    RunAppend(a, [token] + b, o, outputGiven);
  }

  /** An illustration of GetArgValue inside Run: the token after a value-taking
      option is its value even when it is itself an option. */
  lemma ValueMayLookLikeOption()
    ensures ParseArgs(["--patcher-file", "--make-checks"]) ==
      Success(Defaults.(patcherFile := Some("--make-checks")))
  {
    var args := ["--patcher-file", "--make-checks"];
    assert "--output" !in args;
    assert args[2..] == [];
  }

  /** "--data-path" alone also sets the output next to the data file. */
  lemma DataPathDerivesOutput(p: string)
    requires p != "--output"
    ensures ParseArgs(["--data-path", p]) ==
      Success(Defaults.(dataPath := Some(p), outputPath := Some(DerivedOutput(p))))
  {
    var args := ["--data-path", p];
    assert args[0] != "--output" by { assert args[0][2] != "--output"[2]; }
    assert "--output" !in args;
    assert args[2..] == [];
    assert Run(args, Defaults, false) == Run([], SetValue(Defaults, "--data-path", p, false), false);
  }

  /** When "--output" occurs anywhere on the command line, even as the value of
      another option, "--data-path" leaves the output alone: it ends as it
      started or as the token after some "--output". */
  lemma {:induction false} OutputGivenKeepsOutput(tokens: seq<string>, o: Options)
    requires Run(tokens, o, true).Success?
    ensures var out := Run(tokens, o, true).value.outputPath;
      out == o.outputPath ||
      exists k :: 0 <= k < |tokens| - 1 && tokens[k] == "--output" && out == Some(tokens[k + 1])
    decreases |tokens|
  {
    if tokens != [] {
      var rest, next := if ValueOptionName(tokens[0]).Some? then tokens[2..] else tokens[1..],
                        if ValueOptionName(tokens[0]).Some? then SetValue(o, tokens[0], tokens[1], true)
                        else SetFlag(o, tokens[0]);
      var skip := |tokens| - |rest|;
      assert Run(tokens, o, true) == Run(rest, next, true);
      OutputGivenKeepsOutput(rest, next);
      var out := Run(rest, next, true).value.outputPath;
      if out != next.outputPath {
        var k :| 0 <= k < |rest| - 1 && rest[k] == "--output" && out == Some(rest[k + 1]);
        assert tokens[k + skip] == "--output" && tokens[k + skip + 1] == rest[k + 1];
      } else if next.outputPath != o.outputPath {
        assert tokens[0] == "--output" && out == Some(tokens[1]);
      }
    }
  }

  /** The parsed command line. */
  class Arguments {
    var DataPath: Option<string>
    var OutputPath: Option<string>
    var PatcherFile: Option<string>
    var SkipTimestampCheck: bool
    var SkipHashCheck: bool
    var TestMode: bool

    function Values(): Options
      reads this
    {
      Options(DataPath, OutputPath, PatcherFile, SkipTimestampCheck, SkipHashCheck, TestMode)
    }

    constructor ()
      ensures Values() == Defaults
    {
      DataPath, OutputPath, PatcherFile := None, None, None;
      SkipTimestampCheck, SkipHashCheck, TestMode := false, false, false;
    }

    /** "enabled" exactly when a patcher file was given, null otherwise. */
    function PatcherMode(): (mode: Option<string>)
      reads this
      ensures mode.Some? <==> PatcherFile.Some?
      ensures mode.Some? ==> mode.value == "enabled"
    {
      if PatcherFile.Some? then Some("enabled") else None
    }

    /** Arguments.Parse: the tokens read in order; the index moves past the value
        of an option that takes one. */
    static method Parse(args: seq<string>) returns (r: Result<Arguments, string>)
      ensures r.Success? <==> ParseArgs(args).Success?
      ensures r.Success? ==> fresh(r.value) && r.value.Values() == ParseArgs(args).value
      ensures r.Failure? ==> r.error == ParseArgs(args).error
    {
      var parsed := new Arguments();
      ghost var outputGiven := "--output" in args;
      var i := 0;
      while i < |args|
        invariant 0 <= i <= |args|
        invariant fresh(parsed)
        invariant Run(args[i..], parsed.Values(), outputGiven) == ParseArgs(args)
      {
        var token := args[i];
        ghost var rest := args[i..];
        assert rest[0] == token;
        if token == "--data-path" {
          i := i + 1;
          var dataPath := GetArgValue(args, i, "--data-path");
          if dataPath.Failure? {
            return Failure(dataPath.error);
          }
          parsed.DataPath := Some(dataPath.value);
          if "--output" !in args {
            if EndsWithIgnoreCase(dataPath.value, ".win") {
              parsed.OutputPath := Some(dataPath.value[..|dataPath.value| - 4] + ".patched.win");
            } else {
              parsed.OutputPath := Some(dataPath.value + ".patched.win");
            }
          }
        } else if token == "--output" {
          i := i + 1;
          var output := GetArgValue(args, i, "--output");
          if output.Failure? {
            return Failure(output.error);
          }
          parsed.OutputPath := Some(output.value);
        } else if token == "--patcher-file" {
          i := i + 1;
          var patcherFile := GetArgValue(args, i, "--patcher");
          if patcherFile.Failure? {
            return Failure(patcherFile.error);
          }
          parsed.PatcherFile := Some(patcherFile.value);
        } else if token == "--skip-timecheck" {
          parsed.SkipTimestampCheck := true;
          parsed.SkipHashCheck := true;
        } else if token == "--skip-hashcheck" {
          parsed.SkipHashCheck := true;
        } else if token == "--make-checks" {
          parsed.TestMode := true;
        } else {
          return Failure("Unknown argument: " + token);
        }
        i := i + 1;
      }
      return Success(parsed);
    }
  }
}
