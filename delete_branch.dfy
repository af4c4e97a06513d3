/** `git/delete_branch.py`: list local or remote branches, delete those that
    start with a typed prefix, report successes and failures, and offer a
    forced retry for the local ones. What git prints is a parameter; the
    stderr of a deletion is given per branch. */
module DeleteBranch {
  import opened Strings

  // ---------------------------------------------------------------------
  // list_local_branches / list_remote_branches
  // ---------------------------------------------------------------------

  /** `[b.strip() for b in stdout.strip().splitlines()]`. */
  function ListBranches(stdout: string): (r: seq<string>)
    ensures IsBlank(stdout) ==> r == []
    ensures forall k :: 0 <= k < |r| ==> Trimmed(r[k])
  {
    StripEmptyIff(stdout);
    StripEach(SplitLines(Strip(stdout)))
  }

  /** `[line.strip() for line in lines]`. */
  function StripEach(lines: seq<string>): (r: seq<string>)
    ensures |r| == |lines|
    ensures forall k :: 0 <= k < |r| ==> Trimmed(r[k])
  {
    var r := seq(|lines|, k requires 0 <= k < |lines| => Strip(lines[k]));
    assert forall k :: 0 <= k < |r| ==> Trimmed(r[k]) by {
      forall k | 0 <= k < |r| ensures Trimmed(r[k]) {
        StripNoEdgeSpace(lines[k]);
      }
    }
    r
  }

  lemma StripEachListed(bs: seq<string>)
    requires forall k :: 0 <= k < |bs| ==> Listed(bs[k])
    ensures StripEach(bs) == bs
  {
    forall k | 0 <= k < |bs| ensures StripEach(bs)[k] == bs[k] {
      StripIdentity(bs[k]);
    }
  }

  /** No whitespace at either end. */
  predicate Trimmed(s: string)
  {
    s == [] || (!IsSpace(s[0]) && !IsSpace(s[|s| - 1]))
  }

  /** A branch name as the list shows it: non-empty, one line, no whitespace
      at either end. */
  predicate Listed(b: string)
  {
    && b != "" && !IsSpace(b[0]) && !IsSpace(b[|b| - 1])
    && forall j :: 0 <= j < |b| ==> !IsLineBreak(b[j])
  }

  /** One name per line, with a final newline, is read back as the list of
      names. */
  lemma ListBranchesRoundTrip(bs: seq<string>)
    requires |bs| >= 1 && forall k :: 0 <= k < |bs| ==> Listed(bs[k])
    ensures ListBranches(Join(bs, "\n") + "\n") == bs
  {
    JoinedListStrip(bs);
    SplitLinesJoin(bs);
    StripEachListed(bs);
  }

  lemma JoinedListStrip(bs: seq<string>)
    requires |bs| >= 1 && forall k :: 0 <= k < |bs| ==> Listed(bs[k])
    ensures Strip(Join(bs, "\n") + "\n") == Join(bs, "\n")
  {
    var j := Join(bs, "\n");
    JoinEnds(bs, "\n");
    var last := bs[|bs| - 1];
    assert j[|j| - 1] == last[|last| - 1];
    assert j[0] == bs[0][0];
    StripFinalNewline(j);
  }

  // ---------------------------------------------------------------------
  // the prefix filter
  // ---------------------------------------------------------------------

  function StartsWith(prefix: string): string -> bool
  {
    b => prefix <= b
  }

  /** `[branch for branch in branches if branch.startswith(prefix)]`. */
  function Candidates(branches: seq<string>, prefix: string): (r: seq<string>)
    ensures forall b :: b in r <==> b in branches && prefix <= b
  {
    Keep(branches, StartsWith(prefix))
  }

  /** The prefix step: the typed line is stripped; an empty prefix deletes
      nothing (`None`), otherwise the candidates, possibly none. */
  function PrefixStep(branches: seq<string>, line: string): (r: Option<seq<string>>)
    ensures r.None? <==> IsBlank(line)
    ensures r.Some? ==> r.value == Candidates(branches, Strip(line))
  {
    StripEmptyIff(line);
    var prefix := Strip(line);
    if prefix == "" then None else Some(Candidates(branches, prefix))
  }

  /** Candidates keep the listing order: a prefix every branch shares keeps
      the whole list. */
  lemma {:induction false} CandidatesAll(branches: seq<string>, prefix: string)
    requires forall k :: 0 <= k < |branches| ==> prefix <= branches[k]
    ensures Candidates(branches, prefix) == branches
    decreases |branches|
  {
    if branches != [] {
      var init := branches[..|branches| - 1];
      CandidatesAll(init, prefix);
      assert branches == init + [branches[|branches| - 1]];
    }
  }

  // ---------------------------------------------------------------------
  // the deletion loop
  // ---------------------------------------------------------------------

  function Names(failures: seq<(string, string)>): (r: seq<string>)
    ensures |r| == |failures| && forall k :: 0 <= k < |r| ==> r[k] == failures[k].0
  {
    seq(|failures|, k requires 0 <= k < |failures| => failures[k].0)
  }

  /** The candidates deleted cleanly: nothing on stderr once stripped. */
  function Successes(cands: seq<string>, stderr: string -> string): seq<string>
  {
    if cands == [] then []
    else
      var b := cands[|cands| - 1];
      Successes(cands[..|cands| - 1], stderr) + (if Strip(stderr(b)) == "" then [b] else [])
  }

  /** The candidates refused, each with its stripped stderr. */
  function Failures(cands: seq<string>, stderr: string -> string): seq<(string, string)>
  {
    if cands == [] then []
    else
      var b := cands[|cands| - 1];
      var err := Strip(stderr(b));
      Failures(cands[..|cands| - 1], stderr) + (if err != "" then [(b, err)] else [])
  }

  /** The loop that runs `git branch -d` (or the remote push) per candidate;
      `stderr` gives what each run prints on stderr. */
  method DeleteEach(candidates: seq<string>, stderr: string -> string)
    returns (successes: seq<string>, failures: seq<(string, string)>)
    ensures successes == Successes(candidates, stderr)
    ensures failures == Failures(candidates, stderr)
  {
    successes, failures := [], [];
    var i := 0;
    while i < |candidates|
      invariant i <= |candidates|
      invariant successes == Successes(candidates[..i], stderr)
      invariant failures == Failures(candidates[..i], stderr)
    {
      var branch := candidates[i];
      assert candidates[..i + 1][..i] == candidates[..i];
      var err := Strip(stderr(branch));
      if err != "" {
        failures := failures + [(branch, err)];
      } else {
        successes := successes + [branch];
      }
      i := i + 1;
    }
    TakeAll(candidates);
  }

  /** Every candidate lands in exactly one list, and the counts add up. */
  lemma {:induction false} DeletionTotals(cands: seq<string>, stderr: string -> string)
    ensures |Successes(cands, stderr)| + |Failures(cands, stderr)| == |cands|
    decreases |cands|
  {
    if cands != [] {
      DeletionTotals(cands[..|cands| - 1], stderr);
    }
  }

  /** A candidate is a success exactly when its stderr is empty. */
  lemma {:induction false} SuccessesIff(cands: seq<string>, stderr: string -> string)
    ensures forall b :: b in Successes(cands, stderr) <==> b in cands && Strip(stderr(b)) == ""
    decreases |cands|
  {
    if cands != [] {
      var init := cands[..|cands| - 1];
      SuccessesIff(init, stderr);
      assert cands == init + [cands[|cands| - 1]];
    }
  }

  /** A candidate is a failure exactly when its stderr is not empty. */
  lemma {:induction false} FailuresIff(cands: seq<string>, stderr: string -> string)
    ensures forall b :: b in Names(Failures(cands, stderr)) <==> b in cands && Strip(stderr(b)) != ""
    decreases |cands|
  {
    if cands != [] {
      var init, b := cands[..|cands| - 1], cands[|cands| - 1];
      FailuresIff(init, stderr);
      assert cands == init + [b];
      var fs, err := Failures(init, stderr), Strip(stderr(b));
      if err != "" {
        assert Failures(cands, stderr) == fs + [(b, err)];
        NamesSnoc(fs, (b, err));
      } else {
        assert Failures(cands, stderr) == fs;
      }
    }
  }

  lemma NamesSnoc(fs: seq<(string, string)>, f: (string, string))
    ensures Names(fs + [f]) == Names(fs) + [f.0]
  {
  }

  /** Each failure carries the stripped stderr of its own branch, never empty. */
  lemma {:induction false} FailuresCarryStderr(cands: seq<string>, stderr: string -> string)
    ensures forall f :: f in Failures(cands, stderr) ==> f.1 == Strip(stderr(f.0)) && f.1 != ""
    decreases |cands|
  {
    if cands != [] {
      var init, b := cands[..|cands| - 1], cands[|cands| - 1];
      var err := Strip(stderr(b));
      var fs := Failures(init, stderr);
      var extra: seq<(string, string)> := if err != "" then [(b, err)] else [];
      assert Failures(cands, stderr) == fs + extra;
      FailuresCarryStderr(init, stderr);
      forall f: (string, string) | f in fs + extra
        ensures f.1 == Strip(stderr(f.0)) && f.1 != ""
      {
        if f !in fs {
          assert f == (b, err);
        }
      }
    }
  }

  /** The forced retry: asked only after a failure, and run on the failed
      branches only when the answer, stripped and lowercased, is "y". */
  function ForceTargets(failures: seq<(string, string)>, answer: string): (r: seq<string>)
    ensures r != [] ==> Lower(Strip(answer)) == "y" && r == Names(failures)
    ensures failures != [] && Lower(Strip(answer)) == "y" ==> r == Names(failures)
  {
    if failures != [] && Lower(Strip(answer)) == "y" then Names(failures) else []
  }

  // ---------------------------------------------------------------------
  // the remote branch name
  // ---------------------------------------------------------------------

  /** `branch.split('/')[-1]`: the name pushed for deletion, as written. */
  function PushedNameAsWritten(branch: string): (r: string)
    ensures '/' !in r && |r| <= |branch| && branch[|branch| - |r|..] == r
    ensures |r| < |branch| ==> branch[|branch| - |r| - 1] == '/'
  {
    AfterLast(branch, '/')
  }

  /** A remote branch whose own name holds a '/' loses its leading parts. */
  lemma PushedNameDropsFolders()
    ensures PushedNameAsWritten("origin/feature/login") == "login"
  {
    AfterLastUnique("origin/feature/login", '/', "login");
  }

  /** The name on the remote: everything after the remote's own name, that
      is after the first '/'; a branch without '/' is pushed as it is. */
  function PushedName(branch: string): (r: string)
    ensures '/' !in branch ==> r == branch
    ensures '/' in branch ==>
      |r| < |branch| && '/' !in branch[..|branch| - |r| - 1] && branch == branch[..|branch| - |r| - 1] + "/" + r
  {
    if '/' in branch then SplitOnce(branch, '/').1 else branch
  }

  /** For `<remote>/<name>` the name on the remote is given back whole,
      whatever '/' it holds. */
  lemma PushedNameRoundTrip(remote: string, name: string)
    requires '/' !in remote
    ensures PushedName(remote + "/" + name) == name
  {
    var b := remote + "/" + name;
    assert b[..|remote|] == remote && b[|remote|] == '/';
    SplitOnceAt(b, '/', |remote|);
    assert b[|remote| + 1..] == name;
  }

  /** The command run per remote candidate, with the corrected name. */
  function RemoteDeleteCommand(branch: string): string
  {
    "git push --delete origin " + PushedName(branch)
  }

  /** Deleting "origin/<name>" asks the remote to delete `<name>` itself,
      "feature/login" included. */
  lemma RemoteDeleteTargetsWholeName(name: string)
    ensures RemoteDeleteCommand("origin/" + name) == "git push --delete origin " + name
  {
    assert "origin/" + name == "origin" + "/" + name;
    assert '/' !in "origin";
    PushedNameRoundTrip("origin", name);
  }

  // ---------------------------------------------------------------------
  // menus
  // ---------------------------------------------------------------------

  datatype MainChoice = Fetch | DeleteLocal | DeleteRemote | Quit | Invalid

  /** `main_menu`: "1".."3" run an action, "0" exits, anything else asks
      again. */
  function MainDispatch(choice: string): (r: MainChoice)
    ensures r == Fetch <==> choice == "1"
    ensures r == DeleteLocal <==> choice == "2"
    ensures r == DeleteRemote <==> choice == "3"
    ensures r == Quit <==> choice == "0"
    ensures r == Invalid <==> choice !in {"0", "1", "2", "3"}
  {
    if choice == "1" then Fetch
    else if choice == "2" then DeleteLocal
    else if choice == "3" then DeleteRemote
    else if choice == "0" then Quit
    else Invalid
  }

  datatype SubChoice = Back | Refresh | EnterPrefix | Ignored

  /** The branch sub-menus: "0" returns, "1" lists again, "2" asks for a
      prefix, anything else lists again without a message. */
  function SubDispatch(choice: string): (r: SubChoice)
    ensures r == Back <==> choice == "0"
    ensures r == EnterPrefix <==> choice == "2"
    ensures r == Ignored <==> choice !in {"0", "1", "2"}
  {
    if choice == "0" then Back
    else if choice == "1" then Refresh
    else if choice == "2" then EnterPrefix
    else Ignored
  }
}
