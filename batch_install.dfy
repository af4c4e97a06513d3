/** android/batch_install.py: install on every ready adb device the APK its
    entry in a JSON mapping file names by regular expression. */
module BatchInstall {
  import opened Strings
  import AdbSelect

  // ---------------------------------------------------------------------
  // get_adb_devices
  // ---------------------------------------------------------------------

  /** The serial one line of `adb devices` contributes: none for the header,
      a blank line or a device in any state but "device". */
  function ReadySerial(line: string): (r: Option<string>)
    ensures r.Some? ==> r.value != [] && forall j :: 0 <= j < |r.value| ==> !IsSpace(r.value[j])
  {
    if AdbSelect.Header <= line || Strip(line) == "" then None
    else
      var parts := Words(line);
      if |parts| >= 2 && parts[1] == "device" then Some(parts[0]) else None
  }

  /** The serials of `lines`, in order. */
  function Serials(lines: seq<string>): (r: seq<string>)
    ensures |r| <= |lines|
  {
    if lines == [] then []
    else
      var last := ReadySerial(lines[|lines| - 1]);
      Serials(lines[..|lines| - 1]) + (if last.Some? then [last.value] else [])
  }

  /** The lines the loop walks: the stripped output cut at line boundaries. */
  function OutputLines(output: string): seq<string>
  {
    SplitLines(Strip(output))
  }

  /** `get_adb_devices()`; `None` output is the failed `adb devices` run,
      which ends the script. */
  method GetAdbDevices(output: string) returns (devices: seq<string>)
    ensures devices == Serials(OutputLines(output))
  {
    var lines := OutputLines(output);
    devices := [];
    var i := 0;
    while i < |lines|
      invariant i <= |lines|
      invariant devices == Serials(lines[..i])
    {
      var line := lines[i];
      SerialsStep(lines, i);
      if AdbSelect.Header <= line || Strip(line) == "" {
        assert ReadySerial(line).None?;
        i := i + 1;
        continue;
      }
      var parts := Words(line);
      if |parts| >= 2 && parts[1] == "device" {
        assert ReadySerial(line) == Some(parts[0]);
        devices := devices + [parts[0]];
      } else {
        assert ReadySerial(line).None?;
      }
      i := i + 1;
    }
    TakeAll(lines);
  }

  /** One more line adds its serial, if it has one. */
  lemma SerialsStep(lines: seq<string>, i: nat)
    requires i < |lines|
    ensures Serials(lines[..i + 1])
         == Serials(lines[..i]) + (if ReadySerial(lines[i]).Some? then [ReadySerial(lines[i]).value] else [])
  {
    assert lines[..i + 1][..i] == lines[..i];
  }

  lemma {:induction false} SerialsAppend(a: seq<string>, b: seq<string>)
    ensures Serials(a + b) == Serials(a) + Serials(b)
    decreases |b|
  {
    if b == [] {
      assert a + b == a;
    } else {
      assert (a + b)[..|a + b| - 1] == a + b[..|b| - 1];
      SerialsAppend(a, b[..|b| - 1]);
    }
  }

  /** The serials whose state is exactly "device". */
  function ReadyOf(ids: seq<string>, states: seq<string>): (r: seq<string>)
    requires |ids| == |states|
  {
    if ids == [] then []
    else
      var n := |ids| - 1;
      ReadyOf(ids[..n], states[..n]) + (if states[n] == "device" then [ids[n]] else [])
  }

  /** A device row is not the header: the header's fifth character is a
      space, a row's is not. */
  lemma RowNotHeader(id: string, state: string)
    requires Word(id) && Word(state)
    ensures !(AdbSelect.Header <= AdbSelect.Row(id, state))
  {
    var row := AdbSelect.Row(id, state);
    assert AdbSelect.Header[4] == ' ';
    if |row| > 4 {
      if 4 < |id| {
        assert row[4] == id[4];
      } else if 4 > |id| {
        assert row[4] == state[4 - |id| - 1];
      }
      assert row[4] != ' ';
    }
  }

  /** One device row yields its serial exactly when its state is "device". */
  lemma RowSerial(id: string, state: string)
    requires Word(id) && Word(state)
    ensures ReadySerial(AdbSelect.Row(id, state)) == if state == "device" then Some(id) else None
  {
    var row := AdbSelect.Row(id, state);
    assert row == id + ['\t'] + state;
    WordsTwo(id, '\t', state);
    assert row[0] == id[0];
    StripEmptyIff(row);
    RowNotHeader(id, state);
  }

  lemma {:induction false} RowsSerials(ids: seq<string>, states: seq<string>)
    requires |ids| == |states|
    requires forall k :: 0 <= k < |ids| ==> Word(ids[k]) && Word(states[k])
    ensures Serials(AdbSelect.Rows(ids, states)) == ReadyOf(ids, states)
    decreases |ids|
  {
    if ids != [] {
      var n := |ids| - 1;
      var rows := AdbSelect.Rows(ids, states);
      AdbSelect.RowsPrefix(ids, states, n);
      RowsSerials(ids[..n], states[..n]);
      RowSerial(ids[n], states[n]);
    }
  }

  lemma LineBreakIsSpace(c: char)
    requires IsLineBreak(c)
    ensures IsSpace(c)
  {
  }

  /** The report is its header and rows joined, then a blank line. */
  lemma ReportShape(ids: seq<string>, states: seq<string>)
    requires |ids| == |states|
    ensures AdbSelect.Report(ids, states) == Join([AdbSelect.Header] + AdbSelect.Rows(ids, states), "\n") + "\n\n"
  {
    var p := [AdbSelect.Header] + AdbSelect.Rows(ids, states);
    JoinSnoc(p, "\n", "");
    JoinSnoc(p + [""], "\n", "");
    assert p + ["", ""] == p + [""] + [""];
  }

  /** The joined header and rows start with the header and end with the last
      state, so neither end is whitespace. */
  lemma BodyEdges(ids: seq<string>, states: seq<string>)
    requires |ids| == |states|
    requires forall k :: 0 <= k < |ids| ==> Word(ids[k]) && Word(states[k])
    ensures var j := Join([AdbSelect.Header] + AdbSelect.Rows(ids, states), "\n");
      j != [] && !IsSpace(j[0]) && !IsSpace(j[|j| - 1])
  {
    var p := [AdbSelect.Header] + AdbSelect.Rows(ids, states);
    var last := p[|p| - 1];
    assert p[0] == AdbSelect.Header && AdbSelect.Header[0] == 'L';
    if ids == [] {
      assert last == AdbSelect.Header;
      assert last[|last| - 1] == 'd';
    } else {
      var n := |ids| - 1;
      assert last == ids[n] + "\t" + states[n];
      assert last[|last| - 1] == states[n][|states[n]| - 1];
    }
    JoinEdgeChars(p, "\n");
  }

  /** The report without its trailing blank line: header and rows joined. */
  lemma ReportBody(ids: seq<string>, states: seq<string>)
    requires |ids| == |states|
    requires forall k :: 0 <= k < |ids| ==> Word(ids[k]) && Word(states[k])
    ensures Strip(AdbSelect.Report(ids, states)) == Join([AdbSelect.Header] + AdbSelect.Rows(ids, states), "\n")
  {
    var j := Join([AdbSelect.Header] + AdbSelect.Rows(ids, states), "\n");
    ReportShape(ids, states);
    BodyEdges(ids, states);
    TrimPadding("", j, "\n\n", IsSpace);
    assert "" + j == j;
  }

  /** The header and every row are non-empty and hold no line break. */
  lemma ReportLinesUnbroken(ids: seq<string>, states: seq<string>)
    requires |ids| == |states|
    requires forall k :: 0 <= k < |ids| ==> Word(ids[k]) && Word(states[k])
    ensures var p := [AdbSelect.Header] + AdbSelect.Rows(ids, states);
            forall k :: 0 <= k < |p| ==> p[k] != "" && forall j :: 0 <= j < |p[k]| ==> !IsLineBreak(p[k][j])
  {
    var p := [AdbSelect.Header] + AdbSelect.Rows(ids, states);
    forall k | 0 <= k < |p|
      ensures p[k] != "" && forall j :: 0 <= j < |p[k]| ==> !IsLineBreak(p[k][j])
    {
      if k > 0 {
        assert p[k] == ids[k - 1] + "\t" + states[k - 1];
        forall j | 0 <= j < |p[k]|
          ensures !IsLineBreak(p[k][j])
        {
          if IsLineBreak(p[k][j]) {
            LineBreakIsSpace(p[k][j]);
          }
        }
      }
    }
  }

  /** Reading back a report gives exactly the serials in the "device" state,
      in order: the header, the blank line and every other state drop out. */
  lemma DevicesOfReport(ids: seq<string>, states: seq<string>)
    requires |ids| == |states|
    requires forall k :: 0 <= k < |ids| ==> Word(ids[k]) && Word(states[k])
    ensures Serials(OutputLines(AdbSelect.Report(ids, states))) == ReadyOf(ids, states)
  {
    var rows := AdbSelect.Rows(ids, states);
    var p := [AdbSelect.Header] + rows;
    ReportBody(ids, states);
    ReportLinesUnbroken(ids, states);
    SplitLinesJoin(p);
    SerialsAppend([AdbSelect.Header], rows);
    assert [AdbSelect.Header][..0] == [];
    RowsSerials(ids, states);
  }

  // ---------------------------------------------------------------------
  // load_device_mapping
  // ---------------------------------------------------------------------

  /** One object of the mapping file: `entry.get("deviceName")` and
      `entry.get("apkRegex")`. */
  datatype Entry = Entry(deviceName: Option<string>, apkRegex: Option<string>)

  /** `dn and ar`: both present and non-empty. */
  predicate Usable(e: Entry)
  {
    e.deviceName.Some? && e.deviceName.value != "" && e.apkRegex.Some? && e.apkRegex.value != ""
  }

  /** The pattern of the last usable entry for `device`, if any. */
  function LastPattern(entries: seq<Entry>, device: string): (r: Option<string>)
    ensures r.Some? <==> exists i :: 0 <= i < |entries| && Usable(entries[i]) && entries[i].deviceName.value == device
    ensures r.Some? ==> r.value != ""
  {
    if entries == [] then None
    else
      var e := entries[|entries| - 1];
      var init := entries[..|entries| - 1];
      if Usable(e) && e.deviceName.value == device then
        Some(e.apkRegex.value)
      else
        var r := LastPattern(init, device);
        assert forall i :: 0 <= i < |init| ==> init[i] == entries[i];
        r
  }

  /** The names the entries mention. */
  function DeviceNames(entries: seq<Entry>): set<string>
  {
    set i | 0 <= i < |entries| && entries[i].deviceName.Some? :: entries[i].deviceName.value
  }

  /** The lookup the mapping file yields: each named device to the pattern of
      its last usable entry. */
  function Mapping(entries: seq<Entry>): (m: map<string, string>)
    ensures forall d :: d in m <==> LastPattern(entries, d).Some?
    ensures forall d :: d in m ==> m[d] == LastPattern(entries, d).value
  {
    map d | d in DeviceNames(entries) && LastPattern(entries, d).Some? :: LastPattern(entries, d).value
  }

  /** `load_device_mapping()` over the parsed entries. */
  method LoadDeviceMapping(entries: seq<Entry>) returns (lookup: map<string, string>)
    ensures lookup == Mapping(entries)
  {
    lookup := map[];
    var i := 0;
    while i < |entries|
      invariant i <= |entries|
      invariant forall d :: d in lookup <==> LastPattern(entries[..i], d).Some?
      invariant forall d :: d in lookup ==> lookup[d] == LastPattern(entries[..i], d).value
    {
      var e := entries[i];
      assert entries[..i + 1][..i] == entries[..i];
      assert entries[..i + 1][i] == e;
      if e.deviceName.Some? && e.deviceName.value != "" && e.apkRegex.Some? && e.apkRegex.value != "" {
        lookup := lookup[e.deviceName.value := e.apkRegex.value];
      }
      i := i + 1;
    }
    TakeAll(entries);
    assert lookup.Keys == Mapping(entries).Keys;
  }

  /** A later usable entry for the same device replaces the earlier one;
      entries for other devices leave it alone. */
  lemma LaterEntryWins(entries: seq<Entry>, e: Entry, device: string)
    ensures Usable(e) && e.deviceName.value == device ==> LastPattern(entries + [e], device) == Some(e.apkRegex.value)
    ensures !(Usable(e) && e.deviceName.value == device) ==> LastPattern(entries + [e], device) == LastPattern(entries, device)
  {
    assert (entries + [e])[..|entries|] == entries;
  }

  // ---------------------------------------------------------------------
  // find_apk_file
  // ---------------------------------------------------------------------

  /** A listed file the pattern picks: it ends in ".apk" and `fullMatch`
      (the regular expression's `fullmatch`) accepts it. */
  predicate Picks(file: string, pattern: string, fullMatch: (string, string) -> bool)
  {
    EndsWith(file, ".apk") && fullMatch(pattern, file)
  }

  /** `find_apk_file()` over the directory listing `files`. */
  method FindApkFile(files: seq<string>, pattern: string, fullMatch: (string, string) -> bool) returns (apk: Option<string>)
    ensures apk.Some? ==> exists i :: (0 <= i < |files| && files[i] == apk.value && Picks(files[i], pattern, fullMatch)
      && forall j :: 0 <= j < i ==> !Picks(files[j], pattern, fullMatch))
    ensures apk.None? <==> forall j :: 0 <= j < |files| ==> !Picks(files[j], pattern, fullMatch)
    ensures apk == FirstApk(files, pattern, fullMatch)
  {
    var i := 0;
    while i < |files|
      invariant i <= |files|
      invariant forall j :: 0 <= j < i ==> !Picks(files[j], pattern, fullMatch)
    {
      if EndsWith(files[i], ".apk") && fullMatch(pattern, files[i]) {
        FirstApkAt(files, pattern, fullMatch, i);
        return Some(files[i]);
      }
      i := i + 1;
    }
    FirstApkNone(files, pattern, fullMatch);
    return None;
  }

  /** The file `find_apk_file()` returns, as a function. */
  function FirstApk(files: seq<string>, pattern: string, fullMatch: (string, string) -> bool): (r: Option<string>)
    ensures r.Some? ==> r.value in files && Picks(r.value, pattern, fullMatch)
  {
    if files == [] then None
    else if Picks(files[0], pattern, fullMatch) then Some(files[0])
    else FirstApk(files[1..], pattern, fullMatch)
  }

  lemma {:induction false} FirstApkAt(files: seq<string>, pattern: string, fullMatch: (string, string) -> bool, i: nat)
    requires i < |files| && Picks(files[i], pattern, fullMatch)
    requires forall j :: 0 <= j < i ==> !Picks(files[j], pattern, fullMatch)
    ensures FirstApk(files, pattern, fullMatch) == Some(files[i])
    decreases i
  {
    if i > 0 {
      FirstApkAt(files[1..], pattern, fullMatch, i - 1);
    }
  }

  lemma {:induction false} FirstApkNone(files: seq<string>, pattern: string, fullMatch: (string, string) -> bool)
    requires forall j :: 0 <= j < |files| ==> !Picks(files[j], pattern, fullMatch)
    ensures FirstApk(files, pattern, fullMatch) == None
    decreases |files|
  {
    if files != [] {
      FirstApkNone(files[1..], pattern, fullMatch);
    }
  }

  // ---------------------------------------------------------------------
  // main
  // ---------------------------------------------------------------------

  /** How the script ends: an error message, or the (device, APK) installs
      it attempted, in device order. */
  datatype Run = Failed(message: string) | Done(installs: seq<(string, string)>)

  /** The install a device gets: none without a mapping or a matching APK. */
  function InstallFor(device: string, lookup: map<string, string>, files: seq<string>, fullMatch: (string, string) -> bool): (r: Option<string>)
    ensures r.Some? ==> device in lookup && r.value in files && Picks(r.value, lookup[device], fullMatch)
  {
    if device !in lookup then None else FirstApk(files, lookup[device], fullMatch)
  }

  /** The devices of a list of installs. */
  function Targets(installs: seq<(string, string)>): (r: seq<string>)
    ensures |r| == |installs|
    ensures forall k :: 0 <= k < |r| ==> r[k] == installs[k].0
  {
    seq(|installs|, k requires 0 <= k < |installs| => installs[k].0)
  }

  /** The installs for `devices`, in order. */
  function Plan(devices: seq<string>, lookup: map<string, string>, files: seq<string>, fullMatch: (string, string) -> bool): (r: seq<(string, string)>)
    ensures |r| <= |devices|
    ensures forall k :: 0 <= k < |r| ==> InstallFor(r[k].0, lookup, files, fullMatch) == Some(r[k].1)
  {
    if devices == [] then []
    else
      var n := |devices| - 1;
      Plan(devices[..n], lookup, files, fullMatch) +
        match InstallFor(devices[n], lookup, files, fullMatch)
        case None => []
        case Some(f) => [(devices[n], f)]
  }

  /** One more device. */
  lemma PlanStep(devices: seq<string>, i: nat, lookup: map<string, string>, files: seq<string>, fullMatch: (string, string) -> bool)
    requires i < |devices|
    ensures InstallFor(devices[i], lookup, files, fullMatch).None? ==>
      Plan(devices[..i + 1], lookup, files, fullMatch) == Plan(devices[..i], lookup, files, fullMatch)
    ensures InstallFor(devices[i], lookup, files, fullMatch).Some? ==>
      Plan(devices[..i + 1], lookup, files, fullMatch) ==
      Plan(devices[..i], lookup, files, fullMatch) + [(devices[i], InstallFor(devices[i], lookup, files, fullMatch).value)]
  {
    assert devices[..i + 1][..i] == devices[..i];
    assert devices[..i + 1][i] == devices[i];
  }

  /** A device is installed on exactly when it has a mapping and a matching
      APK; the others are skipped. */
  lemma {:induction false} PlanCovers(devices: seq<string>, lookup: map<string, string>, files: seq<string>, fullMatch: (string, string) -> bool, d: string)
    ensures d in Targets(Plan(devices, lookup, files, fullMatch)) <==> d in devices && InstallFor(d, lookup, files, fullMatch).Some?
    decreases |devices|
  {
    if devices != [] {
      var n := |devices| - 1;
      PlanCovers(devices[..n], lookup, files, fullMatch, d);
      assert devices == devices[..n] + [devices[n]];
      var rest := Plan(devices[..n], lookup, files, fullMatch);
      var r := Plan(devices, lookup, files, fullMatch);
      match InstallFor(devices[n], lookup, files, fullMatch) {
        case None =>
          assert r == rest;
        case Some(f) =>
          assert r == rest + [(devices[n], f)];
          assert Targets(r) == Targets(rest) + [devices[n]];
      }
    }
  }

  /** Each device gets at most one install, in device order: the installed
      devices are the listed ones with the skipped ones taken out. */
  lemma {:induction false} PlanKeepsOrder(devices: seq<string>, lookup: map<string, string>, files: seq<string>, fullMatch: (string, string) -> bool)
    ensures Targets(Plan(devices, lookup, files, fullMatch)) == Keep(devices, d => InstallFor(d, lookup, files, fullMatch).Some?)
    decreases |devices|
  {
    if devices != [] {
      var n := |devices| - 1;
      PlanKeepsOrder(devices[..n], lookup, files, fullMatch);
      var rest := Plan(devices[..n], lookup, files, fullMatch);
      var r := Plan(devices, lookup, files, fullMatch);
      match InstallFor(devices[n], lookup, files, fullMatch) {
        case None =>
          assert r == rest;
        case Some(f) =>
          assert r == rest + [(devices[n], f)];
          assert Targets(r) == Targets(rest) + [devices[n]];
      }
    }
  }

  /** `main()` after the module-level checks. `args` are the arguments
      after the script name; `mappingExists` answers `os.path.exists`;
      `adbOutput` is `None` when `adb devices` fails; `entries` is the
      mapping file and `files` the directory listing. */
  method RunScript(args: seq<string>, mappingExists: bool, adbOutput: Option<string>, entries: seq<Entry>,
              files: seq<string>, fullMatch: (string, string) -> bool) returns (run: Run)
    ensures |args| == 0 ==> run == Failed("Please provide a JSON mapping filename as the first argument.")
    ensures |args| > 0 && !mappingExists ==> run == Failed("Mapping file '" + args[0] + "' not found.")
    ensures |args| > 0 && mappingExists && adbOutput.None? ==> run == Failed("Failed to run 'adb devices'.")
    ensures |args| > 0 && mappingExists && adbOutput.Some? && Serials(OutputLines(adbOutput.value)) == [] ==>
      run == Failed("No valid adb devices found.")
    ensures run.Done? ==> adbOutput.Some? && Serials(OutputLines(adbOutput.value)) != []
    ensures |args| > 0 && mappingExists && adbOutput.Some? && Serials(OutputLines(adbOutput.value)) != [] ==>
      run == Done(Plan(Serials(OutputLines(adbOutput.value)), Mapping(entries), files, fullMatch))
    ensures run.Done? ==> run.installs == Plan(Serials(OutputLines(adbOutput.value)), Mapping(entries), files, fullMatch)
  {
    if |args| == 0 {
      return Failed("Please provide a JSON mapping filename as the first argument.");
    }
    if !mappingExists {
      return Failed("Mapping file '" + args[0] + "' not found.");
    }
    if adbOutput.None? {
      return Failed("Failed to run 'adb devices'.");
    }
    var devices := GetAdbDevices(adbOutput.value);
    if devices == [] {
      return Failed("No valid adb devices found.");
    }
    var lookup := LoadDeviceMapping(entries);
    var installs: seq<(string, string)> := [];
    var i := 0;
    assert devices[..0] == [];
    while i < |devices|
      invariant i <= |devices|
      invariant installs == Plan(devices[..i], lookup, files, fullMatch)
    {
      var device := devices[i];
      PlanStep(devices, i, lookup, files, fullMatch);
      if device !in lookup {
        i := i + 1;
        continue;
      }
      var apk := FindApkFile(files, lookup[device], fullMatch);
      if apk.None? {
        i := i + 1;
        continue;
      }
      installs := installs + [(device, apk.value)];
      i := i + 1;
    }
    TakeAll(devices);
    run := Done(installs);
  }
}
