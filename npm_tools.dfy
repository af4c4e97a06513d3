/** `ai/npm-tools.py`: install, upgrade and remove a fixed list of global npm
    packages, optionally for every Node.js version that fnm or nvm knows.
    The npm root directory, package manifests, `npm view` answers, the
    fnm/nvm listings and the console lines are parameters. */
module NpmTools {
  import opened Strings
  import Menu

  /** The packages the script manages, in display order. */
  const Tools: seq<string> := [
    "@anthropic-ai/claude-code",
    "@github/copilot",
    "@google/gemini-cli",
    "opencode-ai",
    "@iflow-ai/iflow-cli",
    "@qwen-code/qwen-code"
  ]

  // ---------------------------------------------------------------------
  // get_npm_root: a module-level cache
  // ---------------------------------------------------------------------

  /** The module-level `_npm_root`. `queries` counts the runs of
      `npm root -g`. */
  class NpmRootCache {
    var root: Option<string>
    ghost var queries: nat

    constructor ()
      ensures root == None && queries == 0
    {
      root := None;
      queries := 0;
    }

    /** `get_npm_root(reset)`; `stdout` is what `npm root -g` would print. */
    method GetNpmRoot(reset: bool, stdout: string) returns (r: string)
      modifies this
      ensures old(root).None? || reset ==> root == Some(Strip(stdout)) && queries == old(queries) + 1
      ensures old(root).Some? && !reset ==> root == old(root) && queries == old(queries)
      ensures root == Some(r)
    {
      if root.None? || reset {
        root := Some(Strip(stdout));
        queries := queries + 1;
      }
      r := root.value;
    }
  }

  // ---------------------------------------------------------------------
  // get_installed_tools
  // ---------------------------------------------------------------------

  /** What `<root>/<tool>/package.json` holds: no file, a file that cannot be
      read as JSON, or a manifest with or without a "version" entry. */
  datatype Package = Absent | Unreadable | Manifest(version: Option<string>)

  /** The version recorded for a package that has a manifest file. */
  function VersionOf(p: Package): string
    requires !p.Absent?
  {
    match p
    case Unreadable => "error"
    case Manifest(v) => if v.Some? then v.value else "unknown"
  }

  /** `get_installed_tools()` for the npm root `root`; `pkg` answers for the
      manifest of each tool under that root. */
  method GetInstalledTools(root: string, pkg: string -> Package) returns (installed: map<string, string>)
    ensures root == "" ==> installed == map[]
    ensures root != "" ==> forall t :: t in installed <==> t in Tools && !pkg(t).Absent?
    ensures forall t :: t in installed ==> !pkg(t).Absent? && installed[t] == VersionOf(pkg(t))
  {
    installed := map[];
    if root == "" {
      return;
    }
    var i := 0;
    while i < |Tools|
      invariant i <= |Tools|
      invariant forall t :: t in installed <==> t in Tools[..i] && !pkg(t).Absent?
      invariant forall t :: t in installed ==> !pkg(t).Absent? && installed[t] == VersionOf(pkg(t))
    {
      var tool := Tools[i];
      TakeOneMore(Tools, i);
      match pkg(tool) {
        case Absent =>
        case Unreadable =>
          installed := installed[tool := "error"];
        case Manifest(v) =>
          installed := installed[tool := if v.Some? then v.value else "unknown"];
      }
      i := i + 1;
    }
    TakeAll(Tools);
  }

  /** The installed tools in dictionary order, which is the order of `Tools`. */
  function InstalledNames(installed: map<string, string>): (r: seq<string>)
    ensures forall t :: t in r <==> t in Tools && t in installed
  {
    Keep(Tools, t => t in installed)
  }

  /** `[tool for tool in TOOLS if tool not in installed]`. */
  function MissingTools(installed: map<string, string>): (r: seq<string>)
    ensures forall t :: t in r <==> t in Tools && t !in installed
  {
    Keep(Tools, t => t !in installed)
  }

  /** Every managed tool is either installed or missing. */
  lemma InstalledOrMissing(installed: map<string, string>)
    ensures |InstalledNames(installed)| + |MissingTools(installed)| == |Tools|
  {
    KeepComplement(Tools, t => t in installed, t => t !in installed);
  }

  // ---------------------------------------------------------------------
  // select_from_list
  // ---------------------------------------------------------------------

  /** What `select_from_list` ends with: an item, `None`, or an end of input,
      which raises `EOFError` there. */
  datatype Pick = Picked(item: string) | Cancelled | EndOfInput

  /** `select_from_list(title, items)`: an empty list gives `None` without
      reading; otherwise 0 gives `None` and k in 1..len gives `items[k-1]`. */
  method SelectFromList(items: seq<string>, answers: seq<string>) returns (r: Pick)
    ensures items == [] ==> r == Cancelled
    ensures items != [] ==> (r == EndOfInput <==> Menu.Selection(answers, 0, |items|).None?)
    ensures items != [] && Menu.Selection(answers, 0, |items|) == Some(0) ==> r == Cancelled
    ensures forall k :: items != [] && 1 <= k <= |items| && Menu.Selection(answers, 0, |items|) == Some(k) ==>
                          r == Picked(items[k - 1])
    ensures r.Picked? ==> exists k :: 1 <= k <= |items| && Menu.Selection(answers, 0, |items|) == Some(k)
                                     && r.item == items[k - 1]
  {
    if items == [] {
      return Cancelled;
    }
    var choice, _ := Menu.ReadInRange(answers, 0, |items|);
    if choice.None? {
      return EndOfInput;
    }
    var k := choice.value;
    r := if k > 0 then Picked(items[k - 1]) else Cancelled;
  }

  // ---------------------------------------------------------------------
  // upgrade_all_tools and uninstall_all_tools
  // ---------------------------------------------------------------------

  /** A tool is reinstalled when npm names a latest version and it differs. */
  predicate Outdated(current: string, latest: string)
  {
    latest != "" && current != latest
  }

  /** The test applied to each installed tool; `latest` is what
      `npm view <tool> version` prints. */
  function Reinstalls(installed: map<string, string>, latest: string -> string): string -> bool
  {
    t => t in installed && Outdated(installed[t], Strip(latest(t)))
  }

  /** The tools `upgrade_all_tools` reinstalls, in dictionary order. */
  function Upgrades(installed: map<string, string>, latest: string -> string): (r: seq<string>)
    ensures forall t :: t in r <==> t in Tools && t in installed && Outdated(installed[t], Strip(latest(t)))
  {
    Keep(InstalledNames(installed), Reinstalls(installed, latest))
  }

  /** The loop of `upgrade_all_tools`. */
  method UpgradeAllTools(installed: map<string, string>, latest: string -> string) returns (reinstalled: seq<string>)
    ensures reinstalled == Upgrades(installed, latest)
  {
    var names := InstalledNames(installed);
    reinstalled := [];
    var i := 0;
    while i < |names|
      invariant i <= |names|
      invariant reinstalled == Keep(names[..i], Reinstalls(installed, latest))
    {
      var tool := names[i];
      UpgradeStep(installed, latest, names, i);
      var v := Strip(latest(tool));
      if v == "" {
        // no latest version: the tool is skipped
      } else if installed[tool] != v {
        reinstalled := reinstalled + [tool];
      }
      i := i + 1;
    }
    TakeAll(names);
  }

  /** One more installed tool in the loop of `upgrade_all_tools`. */
  lemma UpgradeStep(installed: map<string, string>, latest: string -> string, names: seq<string>, i: nat)
    requires names == InstalledNames(installed) && i < |names|
    ensures names[i] in installed
    ensures Reinstalls(installed, latest)(names[i]) <==> Outdated(installed[names[i]], Strip(latest(names[i])))
    ensures Keep(names[..i + 1], Reinstalls(installed, latest)) ==
      Keep(names[..i], Reinstalls(installed, latest)) +
      (if Reinstalls(installed, latest)(names[i]) then [names[i]] else [])
  {
    TakeOneMore(names, i);
    KeepSnoc(names[..i], names[i], Reinstalls(installed, latest));
  }

  /** `uninstall_all_tools`: every installed tool is removed only after an
      answer that lowercases to "y"; `None` is an interrupted prompt. */
  function UninstallAll(installed: map<string, string>, answer: Option<string>): (r: seq<string>)
    ensures r != [] ==> answer.Some? && Lower(answer.value) == "y" && r == InstalledNames(installed)
    ensures answer.Some? && Lower(answer.value) == "y" ==> r == InstalledNames(installed)
  {
    if InstalledNames(installed) == [] then []
    else if answer.Some? && Lower(answer.value) == "y" then InstalledNames(installed)
    else []
  }

  // ---------------------------------------------------------------------
  // fnm and nvm listings
  // ---------------------------------------------------------------------

  /** One line of `fnm list`: markers removed, first word. A line that is
      nothing but markers has no word and `split()[0]` fails: `None`. */
  function FnmVersion(line: string): (r: Option<string>)
    ensures r.Some? ==> Word(r.value)
  {
    var w := Words(Strip(ReplaceAll(ReplaceAll(line, "*", ""), "(default)", "")));
    if w == [] then None else Some(w[0])
  }

  /** The comprehension over the non-blank lines of `fnm list`; `None` when a
      line raises. */
  function FnmVersions(lines: seq<string>): (r: Option<seq<string>>)
    ensures r.Some? ==> |r.value| <= |lines| && forall k :: 0 <= k < |r.value| ==> Word(r.value[k])
  {
    if lines == [] then Some([])
    else
      var init, line := lines[..|lines| - 1], lines[|lines| - 1];
      var rest := FnmVersions(init);
      if Strip(line) == "" then rest
      else match FnmVersion(line)
        case None => None
        case Some(v) => if rest.None? then None else Some(rest.value + [v])
  }

  /** A line of `nvm ls` that names a version: not an alias line with "->"
      and not blank. */
  predicate NvmListed(line: string)
  {
    !Contains(line, "->") && Strip(line) != ""
  }

  /** `[line.split()[0] for line in ... if '->' not in line and line.strip()]`. */
  function NvmVersions(lines: seq<string>): (r: seq<string>)
    ensures |r| == |Keep(lines, NvmListed)|
    ensures forall k :: 0 <= k < |r| ==> Word(r[k])
  {
    var ls := Keep(lines, NvmListed);
    assert forall k :: 0 <= k < |ls| ==> NvmListed(ls[k]) by {
      forall k | 0 <= k < |ls| ensures NvmListed(ls[k]) {
        assert ls[k] in ls;
      }
    }
    seq(|ls|, k requires 0 <= k < |ls| => FirstWord(ls[k]))
  }

  /** `line.split()[0]` for a non-blank line. */
  function FirstWord(line: string): (r: string)
    requires Strip(line) != ""
    ensures Word(r)
  {
    StripEmptyIff(line);
    WordsNonEmpty(line);
    Words(line)[0]
  }

  /** `nvm ls` lines carrying "->" never become versions, and the other
      non-blank lines become one version each, in order. */
  lemma NvmVersionsAt(lines: seq<string>, k: nat)
    requires k < |Keep(lines, NvmListed)|
    ensures NvmListed(Keep(lines, NvmListed)[k])
    ensures NvmVersions(lines)[k] == FirstWord(Keep(lines, NvmListed)[k])
  {
    assert Keep(lines, NvmListed)[k] in Keep(lines, NvmListed);
  }

  /** `fnm list` parsing fails exactly when a non-blank line is nothing but
      markers and whitespace. */
  lemma FnmVersionsFail(lines: seq<string>)
    ensures FnmVersions(lines).None? <==> exists k :: 0 <= k < |lines| && MarkersOnly(lines[k])
  {
    if FnmVersions(lines).None? {
      FailHasCause(lines);
    } else {
      forall k | 0 <= k < |lines| ensures !MarkersOnly(lines[k]) {
        if MarkersOnly(lines[k]) {
          CauseFails(lines, k);
        }
      }
    }
  }

  lemma {:induction false} FailHasCause(lines: seq<string>)
    requires FnmVersions(lines).None?
    ensures exists k :: 0 <= k < |lines| && MarkersOnly(lines[k])
    decreases |lines|
  {
    var n := |lines| - 1;
    var init := lines[..n];
    FnmStep(lines);
    if !MarkersOnly(lines[n]) {
      FailHasCause(init);
      var k :| 0 <= k < |init| && MarkersOnly(init[k]);
      assert lines[k] == init[k];
    }
  }

  lemma {:induction false} CauseFails(lines: seq<string>, k: nat)
    requires k < |lines| && MarkersOnly(lines[k])
    ensures FnmVersions(lines).None?
    decreases |lines|
  {
    var n := |lines| - 1;
    if k < n {
      var init := lines[..n];
      assert init[k] == lines[k];
      CauseFails(init, k);
      FnmStep(lines);
    } else {
      FnmLastFails(lines);
    }
  }

  lemma FnmLastFails(lines: seq<string>)
    requires lines != [] && MarkersOnly(lines[|lines| - 1])
    ensures FnmVersions(lines).None?
  {
  }

  /** The last line fails the whole listing when it is nothing but markers;
      otherwise the listing fails exactly when the earlier lines do. */
  lemma FnmStep(lines: seq<string>)
    requires lines != []
    ensures MarkersOnly(lines[|lines| - 1]) ==> FnmVersions(lines).None?
    ensures !MarkersOnly(lines[|lines| - 1]) ==>
      (FnmVersions(lines).None? <==> FnmVersions(lines[..|lines| - 1]).None?)
  {
  }

  /** A version as `fnm list` prints it: one word, free of the markers. */
  predicate PlainVersion(v: string)
  {
    Word(v) && '*' !in v && '(' !in v
  }

  /** One entry of `fnm list`: the version, whether it is the one in use
      (starred) and whether it is the default. */
  datatype FnmEntry = FnmEntry(version: string, inUse: bool, isDefault: bool)

  function FnmLine(e: FnmEntry): string
  {
    (if e.inUse then "* " else "  ") + e.version + DefaultTail(e.isDefault)
  }

  function FnmListing(es: seq<FnmEntry>): seq<string>
  {
    if es == [] then [] else FnmListing(es[..|es| - 1]) + [FnmLine(es[|es| - 1])]
  }

  function VersionsOf(es: seq<FnmEntry>): seq<string>
  {
    if es == [] then [] else VersionsOf(es[..|es| - 1]) + [es[|es| - 1].version]
  }

  /** The version read from a printed line is its version word, whatever
      markers surround it. */
  lemma FnmVersionOfLine(e: FnmEntry)
    requires PlainVersion(e.version)
    ensures FnmVersion(FnmLine(e)) == Some(e.version)
  {
    var pre := if e.inUse then " " else "  ";
    var post := if e.isDefault then " " else "";
    Unstar(e);
    Undefault(pre, e.version, e.isDefault);
    TrimPadding(pre, e.version, post, IsSpace);
    WordsOfWord(e.version);
  }

  /** The line without its '*' marker. */
  function Unstarred(e: FnmEntry): string
  {
    (if e.inUse then " " else "  ") + e.version + DefaultTail(e.isDefault)
  }

  function DefaultTail(isDefault: bool): string
  {
    if isDefault then " (default)" else ""
  }

  /** Removing '*' leaves the line with only its space. */
  lemma Unstar(e: FnmEntry)
    requires PlainVersion(e.version)
    ensures ReplaceAll(FnmLine(e), "*", "") == Unstarred(e)
  {
    var u := Unstarred(e);
    UnstarredStarFree(e);
    LineShape(e);
    DropStar(u);
  }

  /** The version's first character stands right after the two-column marker. */
  lemma LineNotBlank(e: FnmEntry)
    requires PlainVersion(e.version)
    ensures Strip(FnmLine(e)) != ""
  {
    StripEmptyIff(FnmLine(e));
    assert FnmLine(e)[2] == e.version[0];
  }

  lemma UnstarredStarFree(e: FnmEntry)
    requires PlainVersion(e.version)
    ensures '*' !in Unstarred(e)
  {
    assert '*' !in DefaultTail(e.isDefault);
  }

  lemma LineShape(e: FnmEntry)
    ensures FnmLine(e) == if e.inUse then "*" + Unstarred(e) else Unstarred(e)
  {
  }

  lemma DropStar(u: string)
    requires '*' !in u
    ensures ReplaceAll("*" + u, "*", "") == u
    ensures ReplaceAll(u, "*", "") == u
  {
    ReplaceAfter(u, "", "*", "");
    assert u + "" == u;
    assert ("*" + u)[1..] == u;
  }

  /** Removing "(default)" leaves the space before it. */
  lemma Undefault(pre: string, v: string, isDefault: bool)
    requires PlainVersion(v) && (pre == " " || pre == "  ")
    ensures ReplaceAll(pre + v + (if isDefault then " (default)" else ""), "(default)", "")
         == pre + v + (if isDefault then " " else "")
  {
    var tail := if isDefault then " (default)" else "";
    ReplaceAfter(pre + v, tail, "(default)", "");
    if isDefault {
      ReplaceAfter(" ", "(default)", "(default)", "");
      assert "(default)" <= "(default)" && "(default)"[9..] == "";
    }
  }

  /** An `fnm list` listing reads back as exactly its versions, in order. */
  lemma {:induction false} FnmListingRoundTrip(es: seq<FnmEntry>)
    requires forall k :: 0 <= k < |es| ==> PlainVersion(es[k].version)
    ensures FnmVersions(FnmListing(es)) == Some(VersionsOf(es))
  {
    if es != [] {
      var init, last := es[..|es| - 1], es[|es| - 1];
      FnmListingRoundTrip(init);
      FnmVersionOfLine(last);
      var lines := FnmListing(es);
      assert lines[..|lines| - 1] == FnmListing(init);
      LineNotBlank(last);
    }
  }

  /** A non-blank `fnm list` line without a word once the markers go. */
  predicate MarkersOnly(line: string)
  {
    Strip(line) != "" && FnmVersion(line).None?
  }

  // ---------------------------------------------------------------------
  // the "(current)" marker
  // ---------------------------------------------------------------------

  /** The menu text for a version. */
  function Display(v: string, current: string): string
  {
    if v == current then v + " (current)" else v
  }

  function DisplayVersions(vs: seq<string>, current: string): (r: seq<string>)
    ensures |r| == |vs| && forall k :: 0 <= k < |vs| ==> r[k] == Display(vs[k], current)
  {
    seq(|vs|, k requires 0 <= k < |vs| => Display(vs[k], current))
  }

  /** `selected_display.split(' ')[0]`. */
  function SelectedVersion(display: string): string
  {
    Split(display, ' ')[0]
  }

  /** Taking the text before the first space of a menu entry gives back the
      version, marked or not. */
  lemma CurrentMarkerRoundTrip(v: string, current: string)
    requires ' ' !in v
    ensures SelectedVersion(Display(v, current)) == v
  {
    var d := Display(v, current);
    BeforeIsFirstPiece(d, ' ');
    if v == current {
      assert d[..|v|] == v && d[|v|] == ' ';
      SplitOnceAt(d, ' ', |v|);
    } else {
      AfterNoSpace(v);
    }
  }

  lemma AfterNoSpace(v: string)
    requires ' ' !in v
    ensures Before(v, ' ') == v
  {
  }

  /** Whichever entry is picked, the version handed to fnm or nvm is the
      listed one. */
  lemma PickedVersion(vs: seq<string>, current: string, k: nat)
    requires k < |vs| && Word(vs[k])
    ensures SelectedVersion(DisplayVersions(vs, current)[k]) == vs[k]
  {
    assert ' ' !in vs[k] by {
      assert forall j :: 0 <= j < |vs[k]| ==> vs[k][j] != ' ';
    }
    CurrentMarkerRoundTrip(vs[k], current);
  }

  // ---------------------------------------------------------------------
  // main_loop
  // ---------------------------------------------------------------------

  datatype Action =
    | InstallMissing | InstallOne | UpgradeAll | UninstallOne | UninstallEverything
    | ManageVersions | Invalid | Exit

  /** The keys the menu shows; "6" is hidden in a child run. */
  function MenuKeys(child: bool): set<string>
  {
    {"1", "2", "3", "4", "5", "0"} + (if child then {} else {"6"})
  }

  /** The branch taken for an answer. */
  function Dispatch(choice: string, child: bool): (a: Action)
    ensures a == Exit <==> choice == "0"
    ensures a == Invalid <==> choice !in MenuKeys(child)
    ensures a == ManageVersions ==> !child
  {
    if choice == "1" then InstallMissing
    else if choice == "2" then InstallOne
    else if choice == "3" then UpgradeAll
    else if choice == "4" then UninstallOne
    else if choice == "5" then UninstallEverything
    else if choice == "6" && !child then ManageVersions
    else if choice == "0" then Exit
    else Invalid
  }

  /** The actions a session performs over the answers to the main-menu
      prompt: up to the first "0" or the end of the menu answers; a child
      run stops after one round. */
  function Session(choices: seq<string>, child: bool): seq<Action>
    decreases |choices|
  {
    if choices == [] then []
    else
      var a := Dispatch(choices[0], child);
      if a == Exit then []
      else if child then [a]
      else [a] + Session(choices[1..], child)
  }

  /** The loop of `main_loop`. */
  method MainLoop(choices: seq<string>, child: bool) returns (actions: seq<Action>)
    ensures actions == Session(choices, child)
  {
    actions := [];
    var i := 0;
    while i < |choices|
      invariant i <= |choices|
      invariant !child ==> actions + Session(choices[i..], child) == Session(choices, child)
      invariant child ==> i == 0 && actions == []
    {
      SessionStep(choices[i..], child);
      var a := Dispatch(choices[i], child);
      if a == Exit {
        break;
      }
      actions := actions + [a];
      if child {
        break;
      }
      assert choices[i..][1..] == choices[i + 1..];
      i := i + 1;
    }
  }

  lemma SessionStep(rest: seq<string>, child: bool)
    requires rest != []
    ensures Session(rest, child) ==
      if Dispatch(rest[0], child) == Exit then []
      else if child then [Dispatch(rest[0], child)]
      else [Dispatch(rest[0], child)] + Session(rest[1..], child)
  {
  }

  /** Index of the first "0", or the number of answers. */
  function ExitIndex(choices: seq<string>): (n: nat)
    ensures n <= |choices|
    ensures n < |choices| ==> choices[n] == "0"
    ensures forall k :: 0 <= k < n ==> choices[k] != "0"
  {
    if choices == [] then 0
    else if choices[0] == "0" then 0
    else 1 + ExitIndex(choices[1..])
  }

  /** A parent session performs one action per answer before the first "0",
      and never exits early. */
  lemma {:induction false} SessionUntilExit(choices: seq<string>)
    ensures |Session(choices, false)| == ExitIndex(choices)
    ensures forall k :: 0 <= k < ExitIndex(choices) ==> Session(choices, false)[k] == Dispatch(choices[k], false)
    decreases |choices|
  {
    if choices != [] && choices[0] != "0" {
      SessionUntilExit(choices[1..]);
    }
  }

  /** A child session performs at most one action and never offers version
      management. */
  lemma SessionChild(choices: seq<string>)
    ensures |Session(choices, true)| <= 1
    ensures forall a :: a in Session(choices, true) ==> a != ManageVersions && a != Exit
  {
  }
}
