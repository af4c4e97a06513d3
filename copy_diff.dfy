/** `git/copy_diff.py`: put a diff on the clipboard. A numbered menu picks
    the staged diff, the working-tree diff, the diff of one recent commit
    or the diffs of several commits typed in by hash. Git's answers are
    fields of a `Repo` value (a failed command is `None`), the console
    lines are a finite sequence, and the run ends with an `Exit` saying
    what was copied. */
module CopyDiff {
  import opened Strings
  import Menu

  /** One line of `git log --oneline`. */
  datatype Commit = Commit(hash: string, message: string)

  /** What the git commands print. A command that fails is `None`. `show`
      answers `git show <hash>`. */
  datatype Repo = Repo(staged: Option<string>, working: Option<string>, log: Option<string>,
                       show: string -> Option<string>)

  /** How a run ends: a payload copied, one of the three "nothing" messages,
      the user's "0", or no accepted answer in the input. */
  datatype Exit = Copied(text: string) | NoDiff | NoHashes | NoDiffs | Quit | OutOfInput

  /** The number of entries of the main menu, `len(options)`. */
  const OptionCount: nat := 4

  /** The entries of the main menu. */
  const Options: seq<string> := [
    "Staged diff (git diff --cached)",
    "Working directory diff (git diff)",
    "Diff of a specific commit",
    "Diffs of multiple commits (input hashes)"
  ]

  // ---------------------------------------------------------------------
  // get_recent_commits
  // ---------------------------------------------------------------------

  /** A log line split at its first space: the hash, and the message or "". */
  function CommitOfLine(line: string): (c: Commit)
    ensures ' ' !in c.hash
    ensures ' ' in line ==> line == c.hash + " " + c.message
    ensures ' ' !in line ==> c == Commit(line, "")
  {
    var parts := SplitOnce(line, ' ');
    Commit(parts.0, parts.1)
  }

  predicate NonEmpty(line: string) { line != "" }

  /** One commit per non-empty line, in order. */
  function Commits(lines: seq<string>): seq<Commit>
  {
    var ls := Keep(lines, NonEmpty);
    seq(|ls|, k requires 0 <= k < |ls| => CommitOfLine(ls[k]))
  }

  /** `get_recent_commits()` given what `git log` printed. */
  function RecentCommits(log: Option<string>): (r: seq<Commit>)
    ensures log.None? || log == Some("") ==> r == []
  {
    if log.None? || log.value == "" then []
    else Commits(Split(Strip(log.value), '\n'))
  }

  /** One more line adds its commit when it is not empty. */
  lemma CommitsSnoc(lines: seq<string>, i: nat)
    requires i < |lines|
    ensures Commits(lines[..i + 1]) ==
      Commits(lines[..i]) + (if lines[i] != "" then [CommitOfLine(lines[i])] else [])
  {
    TakeOneMore(lines, i);
    KeepSnoc(lines[..i], lines[i], NonEmpty);
  }

  /** The loop of `get_recent_commits`. */
  method GetRecentCommits(log: Option<string>) returns (commits: seq<Commit>)
    ensures commits == RecentCommits(log)
  {
    if log.None? || log.value == "" {
      return [];
    }
    var lines := Split(Strip(log.value), '\n');
    commits := [];
    var i := 0;
    while i < |lines|
      invariant i <= |lines|
      invariant commits == Commits(lines[..i])
    {
      var line := lines[i];
      CommitsSnoc(lines, i);
      if line != "" {
        var parts := SplitOnce(line, ' ');
        commits := commits + [Commit(parts.0, parts.1)];
      }
      i := i + 1;
    }
    TakeAll(lines);
  }

  /** The line `git log --oneline` prints for a commit. */
  function LogLine(c: Commit): string { c.hash + " " + c.message }

  function LogLines(cs: seq<Commit>): (r: seq<string>)
    ensures |r| == |cs| && forall k :: 0 <= k < |cs| ==> r[k] == LogLine(cs[k])
  {
    seq(|cs|, k requires 0 <= k < |cs| => LogLine(cs[k]))
  }

  /** A commit git can print: a hash without whitespace, a one-line message
      that does not end in whitespace. */
  predicate Printable(c: Commit)
  {
    && c.hash != ""
    && (forall i :: 0 <= i < |c.hash| ==> !IsSpace(c.hash[i]))
    && c.message != "" && '\n' !in c.message && !IsSpace(c.message[|c.message| - 1])
  }

  /** A printed line reads back as its commit. */
  lemma LogLineRoundTrip(c: Commit)
    requires Printable(c)
    ensures '\n' !in LogLine(c) && LogLine(c) != ""
    ensures CommitOfLine(LogLine(c)) == c
  {
    var line := LogLine(c);
    assert forall i :: 0 <= i < |c.hash| ==> c.hash[i] != ' ' && c.hash[i] != '\n';
    assert line == c.hash + [' '] + c.message;
    AroundSeparator(c.hash, ' ', c.message);
    SplitOnceAt(line, ' ', |c.hash|);
  }

  /** Reading back what `git log --oneline` printed recovers every commit,
      in order. */
  lemma RecentCommitsRoundTrip(cs: seq<Commit>)
    requires forall k :: 0 <= k < |cs| ==> Printable(cs[k])
    ensures RecentCommits(Some(Join(LogLines(cs), "\n") + "\n")) == cs
  {
    var ls := LogLines(cs);
    var x := Join(ls, "\n") + "\n";
    assert x != "";
    assert RecentCommits(Some(x)) == Commits(Split(Strip(x), '\n'));
    if cs == [] {
      assert x == "\n";
      assert Strip("\n") == "";
      assert Split("", '\n') == [""];
      assert Keep([""], NonEmpty) == [];
    } else {
      LogSplitsBack(cs);
      CommitsOfLogLines(cs);
    }
  }

  /** Stripping and splitting the printed log gives its lines back. */
  lemma LogSplitsBack(cs: seq<Commit>)
    requires |cs| >= 1 && forall k :: 0 <= k < |cs| ==> Printable(cs[k])
    ensures Split(Strip(Join(LogLines(cs), "\n") + "\n"), '\n') == LogLines(cs)
  {
    var ls := LogLines(cs);
    forall k | 0 <= k < |cs|
      ensures '\n' !in ls[k]
    {
      LogLineRoundTrip(cs[k]);
    }
    LogEnds(cs);
    StripFinalNewline(Join(ls, "\n"));
    SplitJoin(ls, '\n');
  }

  /** Each printed line gives back its commit. */
  lemma CommitsOfLogLines(cs: seq<Commit>)
    requires forall k :: 0 <= k < |cs| ==> Printable(cs[k])
    ensures Commits(LogLines(cs)) == cs
  {
    var ls := LogLines(cs);
    forall k | 0 <= k < |cs|
      ensures ls[k] != "" && CommitOfLine(ls[k]) == cs[k]
    {
      LogLineRoundTrip(cs[k]);
    }
    KeepAll(ls, NonEmpty);
    var r := Commits(ls);
    assert |r| == |cs|;
    assert forall k :: 0 <= k < |cs| ==> r[k] == CommitOfLine(ls[k]) == cs[k];
  }

  /** The printed log starts with the first hash and ends with the last
      message. */
  lemma LogEnds(cs: seq<Commit>)
    requires |cs| >= 1 && forall k :: 0 <= k < |cs| ==> Printable(cs[k])
    ensures var j := Join(LogLines(cs), "\n");
            j != [] && !IsSpace(j[0]) && !IsSpace(j[|j| - 1])
  {
    var ls := LogLines(cs);
    var j := Join(ls, "\n");
    var first, last := ls[0], ls[|ls| - 1];
    assert first == cs[0].hash + " " + cs[0].message;
    assert last == cs[|cs| - 1].hash + " " + cs[|cs| - 1].message;
    JoinEdgeChars(ls, "\n");
  }

  // ---------------------------------------------------------------------
  // copy_and_exit
  // ---------------------------------------------------------------------

  /** `copy_and_exit(diff, ...)`: a diff with a non-space character is copied
      as it is; anything else is "No diff to copy." */
  function CopyAndExit(diff: Option<string>): (e: Exit)
    ensures e.Copied? <==> diff.Some? && !IsBlank(diff.value)
    ensures e.Copied? ==> diff == Some(e.text)
    ensures !e.Copied? ==> e == NoDiff
  {
    match diff
    case None => NoDiff
    case Some(d) =>
      StripEmptyIff(d);
      if Strip(d) != "" then Copied(d) else NoDiff
  }

  // ---------------------------------------------------------------------
  // handle_multiple_commits
  // ---------------------------------------------------------------------

  /** A non-empty string without whitespace at either end. */
  predicate Stripped(h: string) { h != "" && !IsSpace(h[0]) && !IsSpace(h[|h| - 1]) }

  /** No piece holds a comma. */
  predicate CommaFree(ps: seq<string>) { forall k :: 0 <= k < |ps| ==> ',' !in ps[k] }

  lemma StripKeepsOut(s: string, c: char)
    ensures c !in s ==> c !in Strip(s)
  {
    StripShape(s);
  }

  /** The stripped, non-empty pieces, in order. */
  function StrippedPieces(ps: seq<string>): (r: seq<string>)
    ensures forall k :: 0 <= k < |r| ==> Stripped(r[k])
  {
    if ps == [] then []
    else
      var p := ps[|ps| - 1];
      var last := Strip(p);
      var init := StrippedPieces(ps[..|ps| - 1]);
      StripNoEdgeSpace(p);
      var more := if last != "" then [last] else [];
      assert forall k :: 0 <= k < |more| ==> Stripped(more[k]);
      PiecesAppend(init, more);
      init + more
  }

  /** Stripping never brings a comma into a piece. */
  lemma {:induction false} StrippedPiecesCommaFree(ps: seq<string>)
    requires CommaFree(ps)
    ensures CommaFree(StrippedPieces(ps))
    decreases |ps|
  {
    if ps != [] {
      var p := ps[|ps| - 1];
      var init := ps[..|ps| - 1];
      assert CommaFree(init);
      StrippedPiecesCommaFree(init);
      StripKeepsOut(p, ',');
      var more := if Strip(p) != "" then [Strip(p)] else [];
      assert CommaFree(more);
      PiecesAppend(StrippedPieces(init), more);
    }
  }

  lemma PiecesAppend(a: seq<string>, b: seq<string>)
    ensures (forall k :: 0 <= k < |a| ==> Stripped(a[k])) && (forall k :: 0 <= k < |b| ==> Stripped(b[k]))
            ==> forall k :: 0 <= k < |a + b| ==> Stripped((a + b)[k])
    ensures CommaFree(a) && CommaFree(b) ==> CommaFree(a + b)
  {
    assert forall k :: 0 <= k < |a + b| ==> (a + b)[k] == if k < |a| then a[k] else b[k - |a|];
  }

  /** `[h.strip() for h in hashes_input.split(',') if h.strip()]`. */
  function ParseHashes(input: string): (r: seq<string>)
    ensures forall k :: 0 <= k < |r| ==> Stripped(r[k]) && ',' !in r[k]
  {
    var ps := Split(input, ',');
    assert CommaFree(ps);
    StrippedPiecesCommaFree(ps);
    StrippedPieces(ps)
  }

  /** Hashes typed with commas between them are read back as typed. */
  lemma ParseHashesJoin(hs: seq<string>)
    requires |hs| >= 1
    requires forall k :: 0 <= k < |hs| ==> Stripped(hs[k]) && ',' !in hs[k]
    ensures ParseHashes(Join(hs, ",")) == hs
  {
    SplitJoin(hs, ',');
    StrippedPiecesPlain(hs);
  }

  lemma {:induction false} StrippedPiecesPlain(ps: seq<string>)
    requires forall k :: 0 <= k < |ps| ==> Stripped(ps[k])
    ensures StrippedPieces(ps) == ps
    decreases |ps|
  {
    if ps != [] {
      var init, p := ps[..|ps| - 1], ps[|ps| - 1];
      StrippedPiecesPlain(init);
      StripIdentity(p);
      assert Strip(p) == p && p != "";
      assert StrippedPieces(ps) == StrippedPieces(init) + [p];
      FrontLast(ps);
    }
  }

  /** The diffs worth copying, in the order the hashes were given. */
  function GoodDiffs(hs: seq<string>, show: string -> Option<string>): (r: seq<string>)
    ensures |r| <= |hs|
    ensures forall k :: 0 <= k < |r| ==> !IsBlank(r[k])
  {
    if hs == [] then []
    else
      var d := CopyAndExit(show(hs[|hs| - 1]));
      GoodDiffs(hs[..|hs| - 1], show) + (if d.Copied? then [d.text] else [])
  }

  /** The hashes warned about. */
  function FailedHashes(hs: seq<string>, show: string -> Option<string>): seq<string>
  {
    Keep(hs, h => CopyAndExit(show(h)) == NoDiff)
  }

  /** Every hash either gives a diff or a warning, never both. */
  lemma {:induction false} DiffsPartition(hs: seq<string>, show: string -> Option<string>)
    ensures |GoodDiffs(hs, show)| + |FailedHashes(hs, show)| == |hs|
    decreases |hs|
  {
    if hs != [] {
      DiffsPartition(hs[..|hs| - 1], show);
    }
  }

  /** One more hash adds its diff when `git show` printed a non-blank one,
      and a warning otherwise. */
  lemma DiffsStep(hs: seq<string>, i: nat, show: string -> Option<string>)
    requires i < |hs|
    ensures var good := show(hs[i]).Some? && Strip(show(hs[i]).value) != "";
            && GoodDiffs(hs[..i + 1], show) == GoodDiffs(hs[..i], show) + (if good then [show(hs[i]).value] else [])
            && FailedHashes(hs[..i + 1], show) == FailedHashes(hs[..i], show) + (if good then [] else [hs[i]])
  {
    TakeOneMore(hs, i);
    KeepSnoc(hs[..i], hs[i], h => CopyAndExit(show(h)) == NoDiff);
    assert hs[..i + 1][..i] == hs[..i];
  }

  /** The loop over the hashes. */
  method CollectDiffs(hs: seq<string>, show: string -> Option<string>) returns (diffs: seq<string>, failed: seq<string>)
    ensures diffs == GoodDiffs(hs, show)
    ensures failed == FailedHashes(hs, show)
  {
    diffs, failed := [], [];
    var i := 0;
    while i < |hs|
      invariant i <= |hs|
      invariant diffs == GoodDiffs(hs[..i], show)
      invariant failed == FailedHashes(hs[..i], show)
    {
      diffs, failed := CollectDiff(hs, i, show, diffs, failed);
      i := i + 1;
    }
    TakeAll(hs);
  }

  /** One hash of the loop: its diff is collected, or it is reported. */
  method CollectDiff(hs: seq<string>, i: nat, show: string -> Option<string>, diffs: seq<string>, failed: seq<string>)
    returns (diffs': seq<string>, failed': seq<string>)
    requires i < |hs| && diffs == GoodDiffs(hs[..i], show) && failed == FailedHashes(hs[..i], show)
    ensures diffs' == GoodDiffs(hs[..i + 1], show) && failed' == FailedHashes(hs[..i + 1], show)
  {
    var h := hs[i];
    DiffsStep(hs, i, show);
    var diff := show(h);
    if diff.Some? && Strip(diff.value) != "" {
      diffs', failed' := diffs + [diff.value], failed;
    } else {
      diffs', failed' := diffs, failed + [h];
    }
  }

  /** `handle_multiple_commits` once the line is read. */
  function MultipleCommits(input: string, show: string -> Option<string>): (e: Exit)
    ensures ParseHashes(input) == [] ==> e == NoHashes
    ensures ParseHashes(input) != [] && GoodDiffs(ParseHashes(input), show) == [] ==> e == NoDiffs
    ensures e.Copied? ==> !IsBlank(e.text)
    ensures e.Copied? ==> GoodDiffs(ParseHashes(input), show)[0] <= e.text
    ensures GoodDiffs(ParseHashes(input), show) != [] ==> e == Copied(Join(GoodDiffs(ParseHashes(input), show), "\n\n"))
  {
    var hashes := ParseHashes(input);
    if hashes == [] then NoHashes
    else
      var good := GoodDiffs(hashes, show);
      if good == [] then NoDiffs
      else
        JoinEnds(good, "\n\n");
        Copied(Join(good, "\n\n"))
  }

  // ---------------------------------------------------------------------
  // main
  // ---------------------------------------------------------------------

  /** `handle_single_commit` once commit `c` is picked: its `git show`
      output goes through `copy_and_exit`. */
  function ShowCommit(repo: Repo, c: Commit): (e: Exit)
    ensures e.Copied? ==> repo.show(c.hash) == Some(e.text)
  {
    CopyAndExit(repo.show(c.hash))
  }

  /** How one pass through the main menu ends: with an `Exit`, with the
      commit picked for option 3, with the line of hashes typed for option 4,
      or back at the main menu with the lines left after a "0" in the commit
      pick. */
  datatype Round = Done(exit: Exit) | Picked(commit: Commit) | Typed(line: string) | Back(rest: seq<string>)

  /** One pass through the main menu: option 3 goes on with the commit pick
      of `handle_single_commit`, where 0 goes back to the main menu and k
      copies the diff of recent commit k; option 4 reads one line of hashes. */
  function MenuRound(repo: Repo, commits: seq<Commit>, lines: seq<string>): (r: Round)
    ensures r.Back? ==> |r.rest| < |lines|
    ensures r.Picked? ==> r.commit in commits
  {
    match Menu.Selection(lines, 0, OptionCount)
    case None => Done(OutOfInput)
    case Some(s) =>
      var rest := Menu.After(lines, 0, OptionCount);
      if s == 0 then Done(Quit)
      else if s == 1 then Done(CopyAndExit(repo.staged))
      else if s == 2 then Done(CopyAndExit(repo.working))
      else if s == 3 then PickRound(commits, rest)
      else if rest == [] then Done(OutOfInput)
      else Typed(rest[0])
  }

  /** The commit pick of `handle_single_commit` on the lines left: "Back"
      (0) returns to the main menu, k picks recent commit k. */
  function PickRound(commits: seq<Commit>, rest: seq<string>): (r: Round)
    ensures r.Back? ==> |r.rest| < |rest|
    ensures r.Picked? ==> r.commit in commits
  {
    match Menu.Selection(rest, 0, |commits|)
    case None => Done(OutOfInput)
    case Some(k) =>
      if k == 0 then Back(Menu.After(rest, 0, |commits|))
      else Picked(commits[k - 1])
  }

  /** What a run does with the console lines: passes through the main menu
      until one ends. */
  function Session(repo: Repo, commits: seq<Commit>, lines: seq<string>): Exit
    decreases |lines|
  {
    match MenuRound(repo, commits, lines)
    case Done(e) => e
    case Picked(c) => ShowCommit(repo, c)
    case Typed(line) => MultipleCommits(line, repo.show)
    case Back(rest) => Session(repo, commits, rest)
  }

  /** Where a copied text comes from: the staged or working-tree diff, the
      diff of a listed recent commit, or the combined diffs of a typed line. */
  predicate FromGit(repo: Repo, commits: seq<Commit>, lines: seq<string>, e: Exit)
  {
    e.Copied? ==>
      && !IsBlank(e.text)
      && (|| repo.staged == Some(e.text) || repo.working == Some(e.text)
          || (exists c :: c in commits && repo.show(c.hash) == Some(e.text))
          || (exists l :: l in lines && e == MultipleCommits(l, repo.show)))
  }

  /** Whatever the lines, a run copies only what git printed. */
  lemma {:induction false} SessionCopies(repo: Repo, commits: seq<Commit>, lines: seq<string>)
    ensures FromGit(repo, commits, lines, Session(repo, commits, lines))
    decreases |lines|
  {
    SessionRound(repo, commits, lines);
    RoundFromGit(repo, commits, lines);
    match MenuRound(repo, commits, lines)
    case Done(e) =>
    case Picked(c) =>
    case Typed(line) =>
    case Back(rest) =>
      SessionCopies(repo, commits, rest);
      FromGitWider(repo, commits, rest, lines, Session(repo, commits, rest));
  }

  /** One pass ends with a text git printed, reads a typed line, or goes
      back with lines the user typed. */
  lemma RoundFromGit(repo: Repo, commits: seq<Commit>, lines: seq<string>)
    ensures MenuRound(repo, commits, lines).Done? ==> FromGit(repo, commits, lines, MenuRound(repo, commits, lines).exit)
    ensures MenuRound(repo, commits, lines).Typed? ==> MenuRound(repo, commits, lines).line in lines
    ensures MenuRound(repo, commits, lines).Back? ==> forall l :: l in MenuRound(repo, commits, lines).rest ==> l in lines
  {
    match Menu.Selection(lines, 0, OptionCount)
    case None =>
    case Some(s) =>
      var rest := Menu.After(lines, 0, OptionCount);
      if s == 3 {
        var pick := Menu.Selection(rest, 0, |commits|);
        RoundPick(repo, commits, lines, rest, pick);
        if pick.Some? && pick.value == 0 {
          Menu.AfterSuffix(lines, 0, OptionCount);
          Menu.AfterSuffix(rest, 0, |commits|);
          SuffixMember(lines, rest, Menu.After(rest, 0, |commits|));
        } else if pick.Some? {
          assert commits[pick.value - 1] in commits;
        }
      } else {
        RoundMain(repo, commits, lines, s, rest);
        if s == 4 && rest != [] {
          assert rest[0] in lines;
        }
      }
  }

  /** More lines only widen where a copied text may come from. */
  lemma FromGitWider(repo: Repo, commits: seq<Commit>, lines: seq<string>, more: seq<string>, e: Exit)
    requires forall l :: l in lines ==> l in more
    requires FromGit(repo, commits, lines, e)
    ensures FromGit(repo, commits, more, e)
  {
  }

  /** A line of a suffix of a suffix is a line of the whole. */
  lemma SuffixMember(lines: seq<string>, rest: seq<string>, rest2: seq<string>)
    requires |rest| <= |lines| && rest == lines[|lines| - |rest|..]
    requires |rest2| <= |rest| && rest2 == rest[|rest| - |rest2|..]
    ensures forall l :: l in rest2 ==> l in lines
  {
    forall l | l in rest2
      ensures l in lines
    {
      var j :| 0 <= j < |rest2| && rest2[j] == l;
      assert lines[|lines| - |rest2| + j] == l;
    }
  }

  /** One pass through the main menu, reading the lines as `main()` does. */
  method ReadRound(repo: Repo, lines: seq<string>) returns (r: Round)
    ensures r == MenuRound(repo, RecentCommits(repo.log), lines)
  {
    var sel, used := Menu.ReadInRange(lines, 0, OptionCount);
    if sel.None? {
      return Done(OutOfInput);
    }
    var rest := lines[used..];
    if sel.value == 0 {
      r := Done(Quit);
    } else if sel.value == 1 {
      r := Done(CopyAndExit(repo.staged));
    } else if sel.value == 2 {
      r := Done(CopyAndExit(repo.working));
    } else if sel.value == 3 {
      var commits := GetRecentCommits(repo.log);
      r := ReadPick(commits, rest);
    } else if rest == [] {
      r := Done(OutOfInput);
    } else {
      r := Typed(rest[0]);
    }
  }

  /** `handle_single_commit` once the commits are listed: one answer in
      0..len is read. */
  method ReadPick(commits: seq<Commit>, rest: seq<string>) returns (r: Round)
    ensures r == PickRound(commits, rest)
  {
    var pick, used := Menu.ReadInRange(rest, 0, |commits|);
    if pick.None? {
      return Done(OutOfInput);
    }
    if pick.value == 0 {
      return Back(rest[used..]);
    }
    return Picked(commits[pick.value - 1]);
  }

  /** The loop of `main()` with `handle_single_commit` inside it. */
  method MenuLoop(repo: Repo, lines: seq<string>) returns (e: Exit)
    ensures e == Session(repo, RecentCommits(repo.log), lines)
  {
    var cur := lines;
    while true
      invariant Session(repo, RecentCommits(repo.log), cur) == Session(repo, RecentCommits(repo.log), lines)
      decreases |cur|
    {
      var r := ReadRound(repo, cur);
      SessionRound(repo, RecentCommits(repo.log), cur);
      match r
      case Done(x) =>
        return x;
      case Picked(c) =>
        return ShowCommit(repo, c);
      case Typed(line) =>
        return MultipleCommits(line, repo.show);
      case Back(rest) =>
        cur := rest;
    }
  }

  /** `main()` over the console lines. Menu answers, the commit pick and the
      hash line are taken from `lines` in turn. */
  method RunScript(repo: Repo, lines: seq<string>) returns (e: Exit)
    ensures Menu.Selection(lines, 0, OptionCount).None? ==> e == OutOfInput
    ensures Menu.Selection(lines, 0, OptionCount) == Some(0) ==> e == Quit
    ensures Menu.Selection(lines, 0, OptionCount) == Some(1) ==> e == CopyAndExit(repo.staged)
    ensures Menu.Selection(lines, 0, OptionCount) == Some(2) ==> e == CopyAndExit(repo.working)
    // option 3: pick k >= 1 copies the diff of recent commit k; 0 reads the main menu again
    ensures Menu.Selection(lines, 0, OptionCount) == Some(3) ==>
      var rest := Menu.After(lines, 0, OptionCount);
      var commits := RecentCommits(repo.log);
      var pick := Menu.Selection(rest, 0, |commits|);
      && (pick.None? ==> e == OutOfInput)
      && (pick == Some(0) ==> e == Session(repo, commits, Menu.After(rest, 0, |commits|)))
      && (pick.Some? && pick.value >= 1 ==> e == ShowCommit(repo, commits[pick.value - 1]))
    // option 4: the line right after the accepted menu answer holds the hashes
    ensures Menu.Selection(lines, 0, OptionCount) == Some(4) ==>
      var rest := Menu.After(lines, 0, OptionCount);
      e == if rest == [] then OutOfInput else MultipleCommits(rest[0], repo.show)
    ensures FromGit(repo, RecentCommits(repo.log), lines, e)
  {
    e := MenuLoop(repo, lines);
    var commits := RecentCommits(repo.log);
    SessionCopies(repo, commits, lines);
    SessionOptions(repo, commits, lines);
    SessionPick(repo, commits, lines);
  }

  /** The main-menu answers of a session other than 3. */
  lemma SessionOptions(repo: Repo, commits: seq<Commit>, lines: seq<string>)
    ensures Menu.Selection(lines, 0, OptionCount).None? ==> Session(repo, commits, lines) == OutOfInput
    ensures Menu.Selection(lines, 0, OptionCount) == Some(0) ==> Session(repo, commits, lines) == Quit
    ensures Menu.Selection(lines, 0, OptionCount) == Some(1) ==> Session(repo, commits, lines) == CopyAndExit(repo.staged)
    ensures Menu.Selection(lines, 0, OptionCount) == Some(2) ==> Session(repo, commits, lines) == CopyAndExit(repo.working)
    ensures Menu.Selection(lines, 0, OptionCount) == Some(4) ==>
      var rest := Menu.After(lines, 0, OptionCount);
      Session(repo, commits, lines) == if rest == [] then OutOfInput else MultipleCommits(rest[0], repo.show)
  {
    SessionRound(repo, commits, lines);
    match Menu.Selection(lines, 0, OptionCount)
    case None =>
    case Some(s) =>
      if s != 3 {
        RoundMain(repo, commits, lines, s, Menu.After(lines, 0, OptionCount));
      }
  }

  /** Answer 3 of a session: no accepted pick ends the run, 0 goes back to
      the main menu, and k copies the diff of recent commit k. */
  lemma SessionPick(repo: Repo, commits: seq<Commit>, lines: seq<string>)
    ensures Menu.Selection(lines, 0, OptionCount) == Some(3) ==>
      var rest := Menu.After(lines, 0, OptionCount);
      var pick := Menu.Selection(rest, 0, |commits|);
      && (pick.None? ==> Session(repo, commits, lines) == OutOfInput)
      && (pick == Some(0) ==> Session(repo, commits, lines) == Session(repo, commits, Menu.After(rest, 0, |commits|)))
      && (pick.Some? && pick.value >= 1 ==> Session(repo, commits, lines) == ShowCommit(repo, commits[pick.value - 1]))
  {
    if Menu.Selection(lines, 0, OptionCount) == Some(3) {
      SessionRound(repo, commits, lines);
      var rest := Menu.After(lines, 0, OptionCount);
      var pick := Menu.Selection(rest, 0, |commits|);
      RoundPick(repo, commits, lines, rest, pick);
      if pick.Some? && pick.value >= 1 {
        SessionPickCommit(repo, commits, lines, pick.value);
      }
    }
  }

  /** Answer 3 of a session: pick k copies the diff of recent commit k. */
  lemma SessionPickCommit(repo: Repo, commits: seq<Commit>, lines: seq<string>, k: int)
    requires Menu.Selection(lines, 0, OptionCount) == Some(3)
    requires 1 <= k <= |commits| && Menu.Selection(Menu.After(lines, 0, OptionCount), 0, |commits|) == Some(k)
    ensures Session(repo, commits, lines) == ShowCommit(repo, commits[k - 1])
  {
    var rest := Menu.After(lines, 0, OptionCount);
    RoundPick(repo, commits, lines, rest, Some(k));
    assert MenuRound(repo, commits, lines) == Picked(commits[k - 1]);
    SessionPicked(repo, commits, lines, commits[k - 1]);
  }

  /** A pass that picked commit `c` copies that commit's diff. */
  lemma SessionPicked(repo: Repo, commits: seq<Commit>, lines: seq<string>, c: Commit)
    requires MenuRound(repo, commits, lines) == Picked(c)
    ensures Session(repo, commits, lines) == ShowCommit(repo, c)
  {
    SessionRound(repo, commits, lines);
  }

  /** A session is its first pass through the menu, then the next one when
      the pass went back. */
  lemma SessionRound(repo: Repo, commits: seq<Commit>, lines: seq<string>)
    ensures MenuRound(repo, commits, lines).Done? ==> Session(repo, commits, lines) == MenuRound(repo, commits, lines).exit
    ensures MenuRound(repo, commits, lines).Picked? ==>
      Session(repo, commits, lines) == ShowCommit(repo, MenuRound(repo, commits, lines).commit)
    ensures MenuRound(repo, commits, lines).Typed? ==>
      Session(repo, commits, lines) == MultipleCommits(MenuRound(repo, commits, lines).line, repo.show)
    ensures MenuRound(repo, commits, lines).Back? ==>
      Session(repo, commits, lines) == Session(repo, commits, MenuRound(repo, commits, lines).rest)
  {
  }

  /** The main-menu answers other than 3 end the run at once. */
  lemma RoundMain(repo: Repo, commits: seq<Commit>, lines: seq<string>, s: int, rest: seq<string>)
    requires Menu.Selection(lines, 0, OptionCount) == Some(s) && s != 3
    requires rest == Menu.After(lines, 0, OptionCount)
    ensures MenuRound(repo, commits, lines) ==
      if s == 0 then Done(Quit)
      else if s == 1 then Done(CopyAndExit(repo.staged))
      else if s == 2 then Done(CopyAndExit(repo.working))
      else if rest == [] then Done(OutOfInput)
      else Typed(rest[0])
  {
  }

  /** Answer 3 hands the next lines to the commit pick. */
  lemma RoundPick(repo: Repo, commits: seq<Commit>, lines: seq<string>, rest: seq<string>, pick: Option<int>)
    requires Menu.Selection(lines, 0, OptionCount) == Some(3)
    requires rest == Menu.After(lines, 0, OptionCount)
    requires pick == Menu.Selection(rest, 0, |commits|)
    ensures pick.None? ==> MenuRound(repo, commits, lines) == Done(OutOfInput)
    ensures pick == Some(0) ==> MenuRound(repo, commits, lines) == Back(Menu.After(rest, 0, |commits|))
    ensures pick.Some? && pick.value != 0 ==>
      1 <= pick.value <= |commits| && MenuRound(repo, commits, lines) == Picked(commits[pick.value - 1])
  {
    assert MenuRound(repo, commits, lines) == PickRound(commits, rest);
    PickRoundCases(commits, rest, pick);
  }

  /** The answers of the commit pick. */
  lemma PickRoundCases(commits: seq<Commit>, rest: seq<string>, pick: Option<int>)
    requires pick == Menu.Selection(rest, 0, |commits|)
    ensures pick.None? ==> PickRound(commits, rest) == Done(OutOfInput)
    ensures pick == Some(0) ==> PickRound(commits, rest) == Back(Menu.After(rest, 0, |commits|))
    ensures pick.Some? && pick.value != 0 ==>
      1 <= pick.value <= |commits| && PickRound(commits, rest) == Picked(commits[pick.value - 1])
  {
  }
}
