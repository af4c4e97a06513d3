/** `plot/mermaid.py`: a wrapper around the Mermaid command-line renderer
    `mmdc`. It either passes the options given on its command line straight
    to `mmdc` or asks for the output name, format, theme and background.
    The command line is a record of what argparse produced, typed lines are
    a finite sequence, and the `mmdc` argument vector is the result; running
    `mmdc` and its exit status are not part of this model. */
module MermaidCli {
  import opened Strings
  import Paths

  // ---------------------------------------------------------------------
  // option tables and get_user_choice
  // ---------------------------------------------------------------------

  /** Each table maps a menu key to the value it selects; the descriptions
      are only printed. */
  const Themes: map<string, string> := map["1" := "default", "2" := "dark", "3" := "forest", "4" := "neutral"]

  const Backgrounds: map<string, string> :=
    map["1" := "white", "2" := "transparent", "3" := "black", "4" := "#F0F0F0", "5" := "red"]

  const Formats: map<string, string> := map["1" := "png", "2" := "svg", "3" := "pdf"]

  /** A typed line `get_user_choice` accepts: blank, or a key once
      stripped. */
  predicate ValidChoice(options: map<string, string>, answer: string)
  {
    Strip(answer) == "" || Strip(answer) in options
  }

  /** The value an accepted line selects: the default for a blank line. */
  function Chosen(options: map<string, string>, defaultKey: string, answer: string): (v: string)
    requires defaultKey in options && ValidChoice(options, answer)
    ensures v in options.Values
    ensures Strip(answer) == "" ==> v == options[defaultKey]
    ensures Strip(answer) != "" ==> v == options[Strip(answer)]
  {
    var choice := Strip(answer);
    if choice == "" then options[defaultKey] else options[choice]
  }

  /** Position of the first accepted line at or after `i`, if any. */
  function FirstValid(options: map<string, string>, answers: seq<string>, i: nat): (r: Option<nat>)
    requires i <= |answers|
    ensures r.Some? ==> i <= r.value < |answers| && ValidChoice(options, answers[r.value])
    decreases |answers| - i
  {
    if i == |answers| then None
    else if ValidChoice(options, answers[i]) then Some(i)
    else FirstValid(options, answers, i + 1)
  }

  /** Lines before the first accepted one are all refused, and with no first
      accepted line every line is refused. */
  lemma {:induction false} FirstValidSkips(options: map<string, string>, answers: seq<string>, i: nat, k: nat)
    requires i <= k < |answers|
    requires FirstValid(options, answers, i).None? || k < FirstValid(options, answers, i).value
    ensures !ValidChoice(options, answers[k])
    decreases k - i
  {
    FirstValidStep(options, answers, i);
    if !ValidChoice(options, answers[i]) && i < k {
      assert FirstValid(options, answers, i) == FirstValid(options, answers, i + 1);
      FirstValidSkips(options, answers, i + 1, k);
    }
  }

  /** One line: an accepted one is the first, a refused one is skipped. */
  lemma FirstValidStep(options: map<string, string>, answers: seq<string>, i: nat)
    requires i < |answers|
    ensures FirstValid(options, answers, i) ==
      if ValidChoice(options, answers[i]) then Some(i) else FirstValid(options, answers, i + 1)
  {
  }

  /** `get_user_choice`: lines are read until one is accepted; `consumed`
      counts the lines read. When the lines run out the model gives `None`
      (Python raises `EOFError` there). */
  method GetUserChoice(options: map<string, string>, defaultKey: string, answers: seq<string>)
    returns (choice: Option<string>, consumed: nat)
    requires defaultKey in options
    ensures consumed <= |answers|
    ensures choice.Some? <==> FirstValid(options, answers, 0).Some?
    ensures choice.Some? ==>
              && consumed == FirstValid(options, answers, 0).value + 1
              && choice.value == Chosen(options, defaultKey, answers[consumed - 1])
    ensures choice.None? ==> consumed == |answers|
    ensures choice.Some? <==> Ask(options, defaultKey, answers).Some?
    ensures choice.Some? ==> Ask(options, defaultKey, answers) == Some((choice.value, consumed))
  {
    consumed := 0;
    while consumed < |answers|
      invariant consumed <= |answers|
      invariant FirstValid(options, answers, 0) == FirstValid(options, answers, consumed)
    {
      var answer := answers[consumed];
      var line := Strip(answer);
      consumed := consumed + 1;
      if line == "" {
        return Some(options[defaultKey]), consumed;
      }
      if line in options {
        return Some(options[line]), consumed;
      }
    }
    choice := None;
  }

  // ---------------------------------------------------------------------
  // run_mmdc
  // ---------------------------------------------------------------------

  /** How `mmdc` reads its options: after the program name, flag and value
      alternate; the value of the first occurrence of `flag` counts. */
  function FlagValue(argv: seq<string>, flag: string, i: nat): Option<string>
    decreases |argv| - i
  {
    if i + 1 >= |argv| then None
    else if argv[i] == flag then Some(argv[i + 1])
    else FlagValue(argv, flag, i + 2)
  }

  /** The option `mmdc` sees for `flag`. */
  function Setting(argv: seq<string>, flag: string): Option<string>
  {
    FlagValue(argv, flag, 1)
  }

  /** `run_mmdc`'s command: input and output always, then the theme and the
      background, each only when non-empty, in that order. */
  method MmdcCommand(inputFile: string, outputFile: string, theme: string, background: string)
    returns (cmd: seq<string>)
    ensures |cmd| >= 5 && cmd[..5] == ["mmdc", "-i", inputFile, "-o", outputFile]
    ensures cmd[5..] == (if theme != "" then ["-t", theme] else []) + (if background != "" then ["-b", background] else [])
    ensures Setting(cmd, "-i") == Some(inputFile) && Setting(cmd, "-o") == Some(outputFile)
    ensures Setting(cmd, "-t") == if theme != "" then Some(theme) else None
    ensures Setting(cmd, "-b") == if background != "" then Some(background) else None
  {
    cmd := ["mmdc", "-i", inputFile, "-o", outputFile];
    if theme != "" {
      cmd := cmd + ["-t", theme];
    }
    if background != "" {
      cmd := cmd + ["-b", background];
    }
    CommandOptions(cmd, theme, background);
  }

  lemma CommandOptions(cmd: seq<string>, theme: string, background: string)
    requires |cmd| >= 5 && cmd[1] == "-i" && cmd[3] == "-o"
    requires cmd[5..] == (if theme != "" then ["-t", theme] else []) + (if background != "" then ["-b", background] else [])
    ensures Setting(cmd, "-i") == Some(cmd[2]) && Setting(cmd, "-o") == Some(cmd[4])
    ensures Setting(cmd, "-t") == if theme != "" then Some(theme) else None
    ensures Setting(cmd, "-b") == if background != "" then Some(background) else None
  {
    assert FlagValue(cmd, "-o", 1) == FlagValue(cmd, "-o", 3) == Some(cmd[4]);
    assert FlagValue(cmd, "-t", 1) == FlagValue(cmd, "-t", 5);
    assert FlagValue(cmd, "-b", 1) == FlagValue(cmd, "-b", 5);
    if theme != "" {
      assert cmd[5] == "-t" && cmd[6] == theme;
      assert FlagValue(cmd, "-t", 5) == Some(theme);
      assert FlagValue(cmd, "-b", 5) == FlagValue(cmd, "-b", 7);
      if background != "" {
        assert cmd[7] == "-b" && cmd[8] == background && |cmd| == 9;
        assert FlagValue(cmd, "-b", 7) == Some(background);
      } else {
        assert |cmd| == 7;
        assert FlagValue(cmd, "-b", 7) == None;
      }
    } else if background != "" {
      assert cmd[5] == "-b" && cmd[6] == background && |cmd| == 7;
      assert FlagValue(cmd, "-b", 5) == Some(background);
      assert FlagValue(cmd, "-t", 5) == FlagValue(cmd, "-t", 7) == None;
    } else {
      assert |cmd| == 5;
      assert FlagValue(cmd, "-t", 5) == None && FlagValue(cmd, "-b", 5) == None;
    }
  }

  // ---------------------------------------------------------------------
  // interactive_mode
  // ---------------------------------------------------------------------

  /** The output file of the interactive mode: the typed name (stripped), or
      the input's stem when blank, then "." and the format. */
  function OutputFile(typed: string, inputFile: string, format: string): (r: string)
    ensures !IsBlank(typed) ==> r == Strip(typed) + "." + format
    ensures IsBlank(typed) ==> r == Paths.Stem(inputFile) + "." + format
  {
    StripEmptyIff(typed);
    var name := Strip(typed);
    (if name == "" then Paths.Stem(inputFile) else name) + "." + format
  }

  /** The file written names its format: read back with `pathlib`, its stem
      is the chosen name and its suffix the format. */
  lemma OutputFileStemSuffix(name: string, format: string)
    requires name != "" && '/' !in name && !IsSpace(name[0]) && !IsSpace(name[|name| - 1])
    requires format != "" && '.' !in format && '/' !in format
    ensures Paths.Stem(OutputFile(name, "", format)) == name
    ensures Paths.Suffix(OutputFile(name, "", format)) == "." + format
  {
    StripIdentity(name);
    StripEmptyIff(name);
    assert OutputFile(name, "", format) == name + "." + format;
    Paths.StemSuffixOfPlain(name, format);
  }

  /** One menu of `interactive_mode` over the lines left: the value of the
      first accepted line and the number of lines read through it. */
  function Ask(options: map<string, string>, defaultKey: string, answers: seq<string>): (r: Option<(string, nat)>)
    requires defaultKey in options
    ensures r.Some? <==> exists k :: 0 <= k < |answers| && ValidChoice(options, answers[k])
    ensures r.Some? ==> 1 <= r.value.1 <= |answers| && r.value.0 in options.Values
    ensures r.Some? ==> ValidChoice(options, answers[r.value.1 - 1])
    ensures r.Some? ==> r.value.0 == Chosen(options, defaultKey, answers[r.value.1 - 1])
  {
    match FirstValid(options, answers, 0)
    case None =>
      NoneValid(options, answers);
      None
    case Some(j) => Some((Chosen(options, defaultKey, answers[j]), j + 1))
  }

  /** With no first accepted line, no line is accepted. */
  lemma NoneValid(options: map<string, string>, answers: seq<string>)
    requires FirstValid(options, answers, 0).None?
    ensures forall k :: 0 <= k < |answers| ==> !ValidChoice(options, answers[k])
  {
    forall k | 0 <= k < |answers|
      ensures !ValidChoice(options, answers[k])
    {
      FirstValidSkips(options, answers, 0, k);
    }
  }

  /** The format, theme and background `interactive_mode` reads after the
      output name, each menu starting where the previous one stopped. */
  function Choices(answers: seq<string>): (r: Option<(string, string, string)>)
    requires answers != []
    ensures r.Some? ==> r.value.0 in Formats.Values && r.value.1 in Themes.Values && r.value.2 in Backgrounds.Values
  {
    var rest := answers[1..];
    match Ask(Formats, "1", rest)
    case None => None
    case Some((format, n1)) =>
      match Ask(Themes, "1", rest[n1..])
      case None => None
      case Some((theme, n2)) =>
        match Ask(Backgrounds, "1", rest[n1..][n2..])
        case None => None
        case Some((background, _)) => Some((format, theme, background))
  }

  /** Three accepted lines after the name answer the three menus in turn;
      blank lines take the defaults PNG, "default" and white. */
  lemma ChoicesOfThree(answers: seq<string>)
    requires |answers| >= 4
    requires ValidChoice(Formats, answers[1]) && ValidChoice(Themes, answers[2]) && ValidChoice(Backgrounds, answers[3])
    ensures Choices(answers) ==
      Some((Chosen(Formats, "1", answers[1]), Chosen(Themes, "1", answers[2]), Chosen(Backgrounds, "1", answers[3])))
    ensures Strip(answers[1]) == "" && Strip(answers[2]) == "" && Strip(answers[3]) == "" ==>
      Choices(answers) == Some(("png", "default", "white"))
  {
    var rest := answers[1..];
    FirstValidStep(Formats, rest, 0);
    assert rest[1..][0] == answers[2];
    FirstValidStep(Themes, rest[1..], 0);
    assert rest[1..][1..][0] == answers[3];
    FirstValidStep(Backgrounds, rest[1..][1..], 0);
  }

  /** `Choices` fails exactly when one of the three menus runs out of lines. */
  lemma ChoicesStop(answers: seq<string>, menu: nat)
    requires answers != []
    requires menu == 0 ==> Ask(Formats, "1", answers[1..]).None?
    requires menu == 1 ==> (Ask(Formats, "1", answers[1..]).Some?
      && Ask(Themes, "1", answers[1..][Ask(Formats, "1", answers[1..]).value.1..]).None?)
    requires menu >= 2 ==> (Ask(Formats, "1", answers[1..]).Some?
      && Ask(Themes, "1", answers[1..][Ask(Formats, "1", answers[1..]).value.1..]).Some?
      && Ask(Backgrounds, "1", answers[1..][Ask(Formats, "1", answers[1..]).value.1..]
                                 [Ask(Themes, "1", answers[1..][Ask(Formats, "1", answers[1..]).value.1..]).value.1..]).None?)
    ensures Choices(answers).None?
  {
  }

  /** When all three menus are answered, `Choices` holds their values. */
  lemma ChoicesAll(answers: seq<string>)
    requires answers != []
    requires Ask(Formats, "1", answers[1..]).Some?
    requires Ask(Themes, "1", answers[1..][Ask(Formats, "1", answers[1..]).value.1..]).Some?
    requires Ask(Backgrounds, "1", answers[1..][Ask(Formats, "1", answers[1..]).value.1..]
                                 [Ask(Themes, "1", answers[1..][Ask(Formats, "1", answers[1..]).value.1..]).value.1..]).Some?
    ensures Choices(answers) == Some((
      Ask(Formats, "1", answers[1..]).value.0,
      Ask(Themes, "1", answers[1..][Ask(Formats, "1", answers[1..]).value.1..]).value.0,
      Ask(Backgrounds, "1", answers[1..][Ask(Formats, "1", answers[1..]).value.1..]
                          [Ask(Themes, "1", answers[1..][Ask(Formats, "1", answers[1..]).value.1..]).value.1..]).value.0))
  {
  }

  /** `interactive_mode`: nothing runs when the input file is missing;
      otherwise the first line names the output and three menus follow,
      each reading lines until one is accepted. */
  method InteractiveMode(inputFile: string, inputExists: bool, answers: seq<string>)
    returns (cmd: Option<seq<string>>)
    ensures !inputExists || answers == [] ==> cmd.None?
    ensures inputExists && answers != [] ==> (cmd.Some? <==> Choices(answers).Some?)
    ensures cmd.Some? ==>
              && answers != [] && Choices(answers).Some?
              && Setting(cmd.value, "-i") == Some(inputFile)
              && Setting(cmd.value, "-o") == Some(OutputFile(answers[0], inputFile, Choices(answers).value.0))
              && Setting(cmd.value, "-t") == Some(Choices(answers).value.1)
              && Setting(cmd.value, "-b") == Some(Choices(answers).value.2)
  {
    if !inputExists || answers == [] {
      return None;
    }
    var rest := answers[1..];
    var format, n1 := GetUserChoice(Formats, "1", rest);
    if format.None? {
      ChoicesStop(answers, 0);
      return None;
    }
    var outputFile := OutputFile(answers[0], inputFile, format.value);
    var rest1 := rest[n1..];
    var theme, n2 := GetUserChoice(Themes, "1", rest1);
    if theme.None? {
      ChoicesStop(answers, 1);
      return None;
    }
    var rest2 := rest1[n2..];
    var background, n3 := GetUserChoice(Backgrounds, "1", rest2);
    if background.None? {
      ChoicesStop(answers, 2);
      return None;
    }
    ChoicesAll(answers);
    NonEmptyValues();
    var c := MmdcCommand(inputFile, outputFile, theme.value, background.value);
    return Some(c);
  }

  /** No table value is empty, so the interactive command always carries a
      theme and a background. */
  lemma NonEmptyValues()
    ensures "" !in Themes.Values && "" !in Backgrounds.Values && "" !in Formats.Values
  {
  }

  // ---------------------------------------------------------------------
  // main
  // ---------------------------------------------------------------------

  /** What argparse produced: the positional input, `-i`, `-o`, `-t`, `-b`. */
  datatype Args = Args(
    inputFile: Option<string>, inputFileAlt: Option<string>,
    output: Option<string>, theme: Option<string>, background: Option<string>)

  datatype Mode =
    | UsageError                                                  // argparse rejects `-t`
    | Help                                                        // no input file: help, exit 1
    | Direct(input: string, output: string, theme: string, background: string)
    | Interactive(input: string)

  const ThemeChoices: set<string> := {"default", "dark", "forest", "neutral"}

  /** Python's truth value of an optional string. */
  predicate Given(s: Option<string>) { s.Some? && s.value != "" }

  /** `main`: the input is the positional argument or else `-i`; without one
      the help is shown. With output, theme and background all given the
      command runs directly, otherwise interactively. */
  function RunScript(args: Args): (m: Mode)
    ensures m.Help? <==> (args.theme.None? || args.theme.value in ThemeChoices) && !Given(args.inputFile) && !Given(args.inputFileAlt)
    ensures m.Direct? <==> !m.UsageError? && !m.Help? && Given(args.output) && Given(args.theme) && Given(args.background)
    ensures m.Direct? ==> m.input != "" && m.output != "" && m.theme in ThemeChoices && m.background != ""
    ensures m.Interactive? ==> m.input != ""
    ensures m.UsageError? <==> args.theme.Some? && args.theme.value !in ThemeChoices
    ensures m.Interactive? <==> !m.UsageError? && !m.Help? && !m.Direct?
    ensures (m.Direct? || m.Interactive?) ==>
      m.input == if Given(args.inputFile) then args.inputFile.value else args.inputFileAlt.value
    ensures m.Direct? ==>
      m.output == args.output.value && m.theme == args.theme.value && m.background == args.background.value
  {
    if args.theme.Some? && args.theme.value !in ThemeChoices then UsageError
    else
      var input := if Given(args.inputFile) then args.inputFile else args.inputFileAlt;
      if !Given(input) then Help
      else if Given(args.output) && Given(args.theme) && Given(args.background) then
        Direct(input.value, args.output.value, args.theme.value, args.background.value)
      else Interactive(input.value)
  }

  /** The positional input wins over `-i`. */
  lemma PositionalInputFirst(args: Args)
    requires Given(args.inputFile) && (args.theme.None? || args.theme.value in ThemeChoices)
    ensures RunScript(args).Direct? || RunScript(args).Interactive?
    ensures RunScript(args).input == args.inputFile.value
  {
  }
}
