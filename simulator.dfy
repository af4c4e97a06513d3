/** ios/simulator.py: reading `xcrun simctl list devices`, ordering the
    devices booted first, then by runtime and name, and turning the typed
    choice into the shutdown, open or boot command. */
module Simulator {
  import opened Strings

  /** One simulator: its name, UDID, whether it is booted, and the runtime
      header it was listed under (`None` before any header). */
  datatype Device = Device(name: string, id: string, booted: bool, runtime: Option<string>)

  /** What one line of the listing is. `Unparsable` is a line holding both
      parentheses where no ')' follows the first '(' — the regular
      expression finds no group there and the script stops with an error. */
  datatype Line =
    | Header(runtime: string)
    | DeviceLine(name: string, id: string, booted: bool)
    | Unparsable
    | Other

  predicate IsDashOrSpace(c: char) { c == '-' || c == ' ' }

  /** `re.search(r'\((.*?)\)', line).group(1)`: the text between the first
      '(' and the first ')' after it; `None` when no ')' follows it. */
  function FirstGroup(line: string): (r: Option<string>)
    ensures r.Some? ==> ')' !in r.value
    ensures r.Some? ==> var k := |Before(line, '(')|;
      k + 1 + |r.value| < |line| && line[k + 1..k + 1 + |r.value|] == r.value && line[k + 1 + |r.value|] == ')'
  {
    var k := |Before(line, '(')|;
    if k == |line| then None
    else
      var rest := line[k + 1..];
      if ')' in rest then
        var g := Before(rest, ')');
        assert rest[..|g|] == g;
        Some(g)
      else None
  }

  /** The group is missing exactly when no ')' follows the first '('. */
  lemma FirstGroupFound(line: string, j: nat)
    requires j < |line| && line[j] == ')' && |Before(line, '(')| < j
    ensures FirstGroup(line).Some?
  {
    var k := |Before(line, '(')|;
    assert line[k + 1..][j - k - 1] == ')';
  }

  function Classify(line: string): (l: Line)
    ensures l.Header? <==> "--" <= line
    ensures l.Header? ==> l.runtime == Trim(line, IsDashOrSpace)
    ensures l.DeviceLine? ==> ('(' in line && ')' in line
      && l.name == Strip(Before(line, '(')) && Some(l.id) == FirstGroup(line)
      && (l.booted <==> Contains(line, "Booted")))
    ensures l.Unparsable? <==> !("--" <= line) && '(' in line && ')' in line && FirstGroup(line).None?
  {
    if "--" <= line then Header(Trim(line, IsDashOrSpace))
    else if '(' in line && ')' in line then
      match FirstGroup(line)
      case None => Unparsable
      case Some(id) => DeviceLine(Strip(Before(line, '(')), id, Contains(line, "Booted"))
    else Other
  }

  /** The runtime in force after `lines`: the most recent header. */
  function RuntimeAfter(lines: seq<string>): Option<string>
  {
    if lines == [] then None
    else
      var last := lines[|lines| - 1];
      if "--" <= last then Some(Trim(last, IsDashOrSpace)) else RuntimeAfter(lines[..|lines| - 1])
  }

  /** The devices of `lines` in listing order, each with the runtime in force
      where it appears; `None` when the script fails on an unparsable line. */
  function Parsed(lines: seq<string>): Option<seq<Device>>
  {
    if lines == [] then Some([])
    else
      var init := lines[..|lines| - 1];
      match Parsed(init)
      case None => None
      case Some(ds) =>
        match Classify(lines[|lines| - 1])
        case DeviceLine(name, id, booted) => Some(ds + [Device(name, id, booted, RuntimeAfter(init))])
        case Unparsable => None
        case _ => Some(ds)
  }

  // ---------------------------------------------------------------------
  // the sort key (status != 'Booted', runtime, name)
  // ---------------------------------------------------------------------

  predicate RuntimeLe(a: Option<string>, b: Option<string>)
  {
    a.None? || (b.Some? && StrLe(a.value, b.value))
  }

  /** `a` may come before `b`: booted first, then runtime, then name. */
  predicate KeyLe(a: Device, b: Device)
  {
    if a.booted != b.booted then a.booted
    else if a.runtime != b.runtime then RuntimeLe(a.runtime, b.runtime)
    else StrLe(a.name, b.name)
  }

  lemma RuntimeLeTotal(x: Option<string>, y: Option<string>)
    ensures RuntimeLe(x, y) || RuntimeLe(y, x)
  {
    if x.Some? && y.Some? {
      StrLeTotal(x.value, y.value);
    }
  }

  lemma RuntimeLeAntisym(x: Option<string>, y: Option<string>)
    ensures RuntimeLe(x, y) && RuntimeLe(y, x) ==> x == y
  {
    if x.Some? && y.Some? && StrLe(x.value, y.value) && StrLe(y.value, x.value) {
      StrLeAntisym(x.value, y.value);
    }
  }

  lemma RuntimeLeTrans(x: Option<string>, y: Option<string>, z: Option<string>)
    requires RuntimeLe(x, y) && RuntimeLe(y, z)
    ensures RuntimeLe(x, z)
  {
    if x.Some? {
      StrLeTrans(x.value, y.value, z.value);
    }
  }

  lemma KeyLeTotal(a: Device, b: Device)
    ensures KeyLe(a, b) || KeyLe(b, a)
  {
    RuntimeLeTotal(a.runtime, b.runtime);
    StrLeTotal(a.name, b.name);
  }

  lemma KeyLeTrans(a: Device, b: Device, c: Device)
    requires KeyLe(a, b) && KeyLe(b, c)
    ensures KeyLe(a, c)
  {
    if a.booted == b.booted == c.booted {
      if a.runtime == b.runtime {
        if b.runtime == c.runtime {
          StrLeTrans(a.name, b.name, c.name);
        }
      } else if b.runtime != c.runtime {
        RuntimeLeTrans(a.runtime, b.runtime, c.runtime);
        RuntimeLeAntisym(a.runtime, b.runtime);
      }
    }
  }

  /** Each device may come before the next. */
  predicate Sorted(ds: seq<Device>)
  {
    forall i :: 0 <= i < |ds| - 1 ==> KeyLe(ds[i], ds[i + 1])
  }

  /** Put `d` in front of the first device it may precede. */
  function Insert(d: Device, ds: seq<Device>): (r: seq<Device>)
    requires Sorted(ds)
    ensures Sorted(r)
    ensures multiset(r) == multiset(ds) + multiset{d}
    ensures r[0] == d || (ds != [] && r[0] == ds[0])
  {
    if ds == [] || KeyLe(d, ds[0]) then [d] + ds
    else
      KeyLeTotal(d, ds[0]);
      var t := Insert(d, ds[1..]);
      assert ds == [ds[0]] + ds[1..];
      [ds[0]] + t
  }

  /** `sorted(devices, key=...)`. */
  function SortDevices(ds: seq<Device>): (r: seq<Device>)
    ensures Sorted(r)
    ensures multiset(r) == multiset(ds)
  {
    if ds == [] then []
    else
      assert ds == [ds[0]] + ds[1..];
      Insert(ds[0], SortDevices(ds[1..]))
  }

  /** Sortedness between neighbours orders every pair. */
  lemma {:induction false} SortedOrdersAll(ds: seq<Device>, i: nat, j: nat)
    requires Sorted(ds) && i <= j < |ds|
    ensures KeyLe(ds[i], ds[j])
    decreases j - i
  {
    if i == j {
      StrLeTotal(ds[i].name, ds[i].name);
    } else {
      SortedOrdersAll(ds, i + 1, j);
      KeyLeTrans(ds[i], ds[i + 1], ds[j]);
    }
  }

  /** In a sorted list every booted device comes before every shut-down one,
      and devices of the same status are grouped by runtime. */
  lemma SortedBootedFirst(ds: seq<Device>, i: nat, j: nat)
    requires Sorted(ds) && i < j < |ds|
    ensures ds[j].booted ==> ds[i].booted
    ensures ds[i].booted == ds[j].booted ==> RuntimeLe(ds[i].runtime, ds[j].runtime)
  {
    SortedOrdersAll(ds, i, j);
    if ds[i].runtime.Some? {
      StrLeTotal(ds[i].runtime.value, ds[i].runtime.value);
    }
  }

  // ---------------------------------------------------------------------
  // list_devices
  // ---------------------------------------------------------------------

  /** The lines the script walks: the stripped output split at '\n'. */
  function ListingLines(stdout: string): seq<string>
  {
    Split(Strip(stdout), '\n')
  }

  /** `list_devices()`: `None` when the script fails on an unparsable line,
      otherwise the parsed devices in sort order. */
  method ListDevices(stdout: string) returns (result: Option<seq<Device>>)
    ensures result.None? <==> Parsed(ListingLines(stdout)).None?
    ensures result.Some? ==> Sorted(result.value)
    ensures result.Some? ==> multiset(result.value) == multiset(Parsed(ListingLines(stdout)).value)
  {
    var parsed := ParseListing(ListingLines(stdout));
    if parsed.None? {
      return None;
    }
    result := Some(SortDevices(parsed.value));
  }

  /** The loop of `list_devices`: walks the lines, tracking the runtime of
      the latest header, and collects the devices in listing order. */
  method ParseListing(lines: seq<string>) returns (parsed: Option<seq<Device>>)
    ensures parsed == Parsed(lines)
  {
    var devices: seq<Device> := [];
    var current: Option<string> := None;
    var i := 0;
    assert lines[..0] == [];
    while i < |lines|
      invariant i <= |lines|
      invariant current == RuntimeAfter(lines[..i])
      invariant Parsed(lines[..i]) == Some(devices)
    {
      var ok;
      ok, devices, current := ReadListingLine(lines, i, devices, current);
      if !ok {
        return None;
      }
      i := i + 1;
    }
    TakeAll(lines);
    parsed := Some(devices);
  }

  /** The body of the loop in `list_devices` for line `i`: `false` when the
      line is unparsable, otherwise the devices and runtime after it. */
  method ReadListingLine(lines: seq<string>, i: nat, devices: seq<Device>, current: Option<string>)
    returns (ok: bool, devices': seq<Device>, current': Option<string>)
    requires i < |lines|
    requires current == RuntimeAfter(lines[..i]) && Parsed(lines[..i]) == Some(devices)
    ensures !ok ==> Parsed(lines).None?
    ensures ok ==> current' == RuntimeAfter(lines[..i + 1]) && Parsed(lines[..i + 1]) == Some(devices')
  {
    var line := lines[i];
    ListingStep(lines, i);
    ok, devices', current' := true, devices, current;
    if "--" <= line {
      current' := Some(Trim(line, IsDashOrSpace));
    } else if '(' in line && ')' in line {
      var g := FirstGroup(line);
      if g.None? {
        ParsedStopsAt(lines, i);
        ok := false;
        return;
      }
      devices' := devices + [Device(Strip(Before(line, '(')), g.value, Contains(line, "Booted"), current)];
    } else {
      assert Classify(line).Other?;
    }
  }

  /** One more line of the listing. */
  lemma ListingStep(lines: seq<string>, i: nat)
    requires i < |lines|
    ensures RuntimeAfter(lines[..i + 1]) ==
      (if "--" <= lines[i] then Some(Trim(lines[i], IsDashOrSpace)) else RuntimeAfter(lines[..i]))
    ensures Parsed(lines[..i]).None? ==> Parsed(lines[..i + 1]).None?
    ensures Parsed(lines[..i]).Some? ==>
      Parsed(lines[..i + 1]) == (match Classify(lines[i])
        case DeviceLine(name, id, booted) => Some(Parsed(lines[..i]).value + [Device(name, id, booted, RuntimeAfter(lines[..i]))])
        case Unparsable => None
        case _ => Parsed(lines[..i]))
  {
    var p := lines[..i + 1];
    assert p[..|p| - 1] == lines[..i];
    assert p[|p| - 1] == lines[i];
  }

  /** An unparsable line makes the whole listing fail. */
  lemma {:induction false} ParsedStopsAt(lines: seq<string>, i: nat)
    requires i < |lines| && Classify(lines[i]).Unparsable?
    ensures Parsed(lines).None?
    decreases |lines|
  {
    if i < |lines| - 1 {
      assert lines[..|lines| - 1][i] == lines[i];
      ParsedStopsAt(lines[..|lines| - 1], i);
    }
  }

  /** A device line takes the runtime of the latest header above it. */
  lemma {:induction false} RuntimeIsLatestHeader(lines: seq<string>, j: nat)
    requires j < |lines| && "--" <= lines[j]
    requires forall k :: j < k < |lines| ==> !("--" <= lines[k])
    ensures RuntimeAfter(lines) == Some(Trim(lines[j], IsDashOrSpace))
    decreases |lines|
  {
    if j < |lines| - 1 {
      var init := lines[..|lines| - 1];
      assert init[j] == lines[j];
      assert forall k :: j < k < |init| ==> init[k] == lines[k];
      RuntimeIsLatestHeader(init, j);
    }
  }

  /** Before any header the runtime is `None`. */
  lemma {:induction false} RuntimeBeforeHeaders(lines: seq<string>)
    requires forall k :: 0 <= k < |lines| ==> !("--" <= lines[k])
    ensures RuntimeAfter(lines) == None
    decreases |lines|
  {
    if lines != [] {
      var init := lines[..|lines| - 1];
      assert forall k :: 0 <= k < |init| ==> init[k] == lines[k];
      RuntimeBeforeHeaders(init);
    }
  }

  // ---------------------------------------------------------------------
  // reading back the lines simctl prints
  // ---------------------------------------------------------------------

  /** A runtime header as simctl prints it. */
  function HeaderText(runtime: string): string
  {
    "-- " + runtime + " --"
  }

  /** A device line as simctl prints it. */
  function DeviceText(name: string, id: string, state: string): string
  {
    "    " + name + " (" + id + ") (" + state + ")"
  }

  lemma HeaderRoundTrip(runtime: string)
    requires runtime != [] && !IsDashOrSpace(runtime[0]) && !IsDashOrSpace(runtime[|runtime| - 1])
    ensures Classify(HeaderText(runtime)) == Header(runtime)
  {
    assert HeaderText(runtime) == "-- " + runtime + " --";
    TrimPadding("-- ", runtime, " --", IsDashOrSpace);
  }

  /** No 'B' means no "Booted" inside. */
  lemma {:induction false} NoBootedWithoutB(s: string)
    requires 'B' !in s
    ensures !Contains(s, "Booted")
    decreases |s|
  {
    if s != [] {
      assert s[0] != 'B';
      NoBootedWithoutB(s[1..]);
    }
  }

  /** The name of a printed device line is the text before its '(' stripped. */
  lemma DeviceTextName(name: string, id: string, state: string)
    requires name != [] && !IsSpace(name[0]) && !IsSpace(name[|name| - 1]) && '(' !in name
    ensures Strip(Before(DeviceText(name, id, state), '(')) == name
  {
    var pre := "    " + name + " ";
    var line := DeviceText(name, id, state);
    assert line == pre + ("(" + id + ") (" + state + ")");
    assert line[..|pre|] == pre;
    BeforeAt(line, '(', |pre|);
    TrimPadding("    ", name, " ", IsSpace);
  }

  /** The first parenthesised group of a printed device line is its UDID. */
  lemma DeviceTextGroup(name: string, id: string, state: string)
    requires '(' !in name && ')' !in id
    ensures FirstGroup(DeviceText(name, id, state)) == Some(id)
  {
    var pre := "    " + name + " ";
    var rest := id + ") (" + state + ")";
    var line := DeviceText(name, id, state);
    assert line == pre + "(" + rest;
    assert line[..|pre|] == pre;
    BeforeAt(line, '(', |pre|);
    assert line[|pre| + 1..] == rest;
    assert rest[..|id|] == id;
    BeforeAt(rest, ')', |id|);
  }

  lemma DeviceTextBooted(name: string, id: string, state: string)
    requires 'B' !in name && 'B' !in id
    requires state == "Booted" || state == "Shutdown"
    ensures Contains(DeviceText(name, id, state), "Booted") <==> state == "Booted"
  {
    var line := DeviceText(name, id, state);
    var pre := "    " + name + " (" + id + ") (";
    assert line == pre + state + ")";
    if state == "Booted" {
      assert line[|pre|..|pre| + 6] == "Booted";
      ContainsAt(line, "Booted", |pre|);
    } else {
      assert forall i :: 0 <= i < |line| ==> line[i] != 'B';
      NoBootedWithoutB(line);
    }
  }

  /** A device line reads back as its name, UDID and state, for a name
      without edge whitespace and a UDID without parentheses. */
  lemma DeviceRoundTrip(name: string, id: string, state: string)
    requires name != [] && !IsSpace(name[0]) && !IsSpace(name[|name| - 1])
    requires '(' !in name && ')' !in id
    requires 'B' !in name && 'B' !in id
    requires state == "Booted" || state == "Shutdown"
    ensures Classify(DeviceText(name, id, state)) == DeviceLine(name, id, state == "Booted")
  {
    var line := DeviceText(name, id, state);
    var k := |"    " + name + " "|;
    assert line[0] == ' ' && line[k] == '(' && line[|line| - 1] == ')';
    DeviceTextGroup(name, id, state);
    DeviceTextName(name, id, state);
    DeviceTextBooted(name, id, state);
    ClassifyDevice(line);
  }

  /** A line that is not a header, has both parentheses and a first group
      is a device line. */
  lemma ClassifyDevice(line: string)
    requires line != [] && line[0] != '-'
    requires '(' in line && ')' in line && FirstGroup(line).Some?
    ensures Classify(line) == DeviceLine(Strip(Before(line, '(')), FirstGroup(line).value, Contains(line, "Booted"))
  {
    assert !("--" <= line);
  }

  lemma BeforeAt(s: string, c: char, k: nat)
    requires k < |s| && s[k] == c && c !in s[..k]
    ensures Before(s, c) == s[..k]
  {
    SplitOnceAt(s, c, k);
  }

  // ---------------------------------------------------------------------
  // main: the choice
  // ---------------------------------------------------------------------

  datatype Action =
    | ShutdownAll
    | OpenSimulator(name: string)
    | BootAndOpen(name: string, id: string)
    | Invalid

  /** The index a typed number selects: `k` in 1..len picks `devices[k-1]`. */
  function Selected(choice: string, count: nat): (r: Option<nat>)
    ensures r.Some? <==> AllDigits(choice) && 1 <= DigitsValue(choice) <= count
    ensures r.Some? ==> r.value < count && DigitsValue(choice) == r.value + 1
  {
    if AllDigits(choice) && 1 <= DigitsValue(choice) <= count then Some(DigitsValue(choice) - 1) else None
  }

  function Decide(choice: string, devices: seq<Device>): (a: Action)
    ensures a.ShutdownAll? <==> choice == "0"
    ensures a.Invalid? <==> choice != "0" && Selected(choice, |devices|).None?
    ensures a.OpenSimulator? ==> exists k :: Selected(choice, |devices|) == Some(k) && devices[k].booted && a.name == devices[k].name
    ensures a.BootAndOpen? ==> exists k :: (Selected(choice, |devices|) == Some(k) && !devices[k].booted
      && a.name == devices[k].name && a.id == devices[k].id)
  {
    if choice == "0" then ShutdownAll
    else
      match Selected(choice, |devices|)
      case None => Invalid
      case Some(k) =>
        var d := devices[k];
        if d.booted then OpenSimulator(d.name) else BootAndOpen(d.name, d.id)
  }

  /** The command the action runs; an invalid choice runs none. */
  function Command(a: Action): (c: Option<string>)
    ensures c.None? <==> a.Invalid?
  {
    match a
    case ShutdownAll => Some("xcrun simctl shutdown all")
    case OpenSimulator(_) => Some("open -a Simulator")
    case BootAndOpen(_, id) => Some("open -a Simulator --args -CurrentDeviceUDID " + id)
    case Invalid => None
  }

  /** The number printed next to a device selects it: entry `k` is shown as
      `k + 1`, and typing that number acts on `devices[k]`. */
  lemma NumberSelects(devices: seq<Device>, k: nat)
    requires k < |devices|
    ensures Selected(NatToString(k + 1), |devices|) == Some(k)
    ensures Decide(NatToString(k + 1), devices) ==
      (if devices[k].booted then OpenSimulator(devices[k].name) else BootAndOpen(devices[k].name, devices[k].id))
  {
    NatToStringValue(k + 1);
  }

  /** Only the id of a shut-down device reaches the command line. */
  lemma BootCommandCarriesId(choice: string, devices: seq<Device>)
    requires Decide(choice, devices).BootAndOpen?
    ensures exists k :: (0 <= k < |devices| && !devices[k].booted
      && Command(Decide(choice, devices)) == Some("open -a Simulator --args -CurrentDeviceUDID " + devices[k].id))
  {
    var k := Selected(choice, |devices|).value;
    assert !devices[k].booted;
  }

  /** A leading zero still selects ("01" is entry 1), but a space does not:
      the choice is not stripped before `isdigit()`. */
  lemma ChoiceForms(devices: seq<Device>)
    requires |devices| >= 1
    ensures Selected("01", |devices|) == Some(0)
    ensures Decide(" 1", devices) == Invalid
    ensures Decide("00", devices) == Invalid
  {
    assert DigitsValue("01") == DigitsValue("0") * 10 + 1;
    assert DigitsValue("00") == DigitsValue("0") * 10;
    assert !IsDigit(" 1"[0]);
  }
}
