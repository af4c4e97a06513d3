/** `select_device()`, which android/android-record.py,
    android/android_input_text.py, android/android_deeplink.py and
    android/screencast.py each carry in the same words: read `adb devices`,
    take the text before the first tab of every line holding a tab, and pick
    one device — automatically when there is only one, by its printed number
    otherwise. */
module AdbSelect {
  import opened Strings

  // ---------------------------------------------------------------------
  // what `adb devices` prints
  // ---------------------------------------------------------------------

  const Header := "List of devices attached"

  /** One device line: serial, a tab, and the state ("device", "offline",
      "unauthorized", ...). */
  function Row(id: string, state: string): string
  {
    id + "\t" + state
  }

  function Rows(ids: seq<string>, states: seq<string>): (r: seq<string>)
    requires |ids| == |states|
    ensures |r| == |ids|
    ensures forall k :: 0 <= k < |ids| ==> r[k] == Row(ids[k], states[k])
  {
    seq(|ids|, k requires 0 <= k < |ids| => Row(ids[k], states[k]))
  }

  /** The rows of the first `n` devices are the first `n` rows. */
  lemma RowsPrefix(ids: seq<string>, states: seq<string>, n: nat)
    requires |ids| == |states| && n <= |ids|
    ensures Rows(ids, states)[..n] == Rows(ids[..n], states[..n])
  {
  }

  /** The whole report: the header, one line per device, and a blank line. */
  function Report(ids: seq<string>, states: seq<string>): string
    requires |ids| == |states|
  {
    Join([Header] + Rows(ids, states) + ["", ""], "\n")
  }

  /** A serial or state as adb prints it: one field on one line. */
  predicate Field(s: string)
  {
    s != [] && '\t' !in s && '\n' !in s
  }

  predicate Fields(ids: seq<string>, states: seq<string>)
  {
    |ids| == |states| && (forall k :: 0 <= k < |ids| ==> Field(ids[k])) && (forall k :: 0 <= k < |states| ==> Field(states[k]))
  }

  /** The report splits at '\n' into its header, its rows and two empty pieces. */
  lemma ReportLines(ids: seq<string>, states: seq<string>)
    requires Fields(ids, states)
    ensures Split(Report(ids, states), '\n') == [Header] + Rows(ids, states) + ["", ""]
  {
    var parts := [Header] + Rows(ids, states) + ["", ""];
    forall i | 0 <= i < |parts|
      ensures '\n' !in parts[i]
    {
      if 1 <= i <= |ids| {
        assert parts[i] == ids[i - 1] + "\t" + states[i - 1];
      }
    }
    SplitJoin(parts, '\n');
  }

  // ---------------------------------------------------------------------
  // the device ids
  // ---------------------------------------------------------------------

  /** `[x.split('\t')[0] for x in lines if '\t' in x]`. */
  function TabIds(lines: seq<string>): (r: seq<string>)
    ensures |r| <= |lines|
    ensures forall k :: 0 <= k < |r| ==> '\t' !in r[k]
  {
    if lines == [] then []
    else
      var last := lines[|lines| - 1];
      TabIds(lines[..|lines| - 1]) + (if '\t' in last then [Before(last, '\t')] else [])
  }

  lemma {:induction false} TabIdsAppend(a: seq<string>, b: seq<string>)
    ensures TabIds(a + b) == TabIds(a) + TabIds(b)
    decreases |b|
  {
    if b == [] {
      assert a + b == a;
    } else {
      assert (a + b)[..|a + b| - 1] == a + b[..|b| - 1];
      TabIdsAppend(a, b[..|b| - 1]);
    }
  }

  lemma HeaderHasNoTab()
    ensures '\t' !in Header
  {
    assert forall i :: 0 <= i < |Header| ==> Header[i] != '\t';
  }

  /** Lines without a tab contribute nothing. */
  lemma {:induction false} TabIdsNone(lines: seq<string>)
    requires forall k :: 0 <= k < |lines| ==> '\t' !in lines[k]
    ensures TabIds(lines) == []
    decreases |lines|
  {
    if lines != [] {
      TabIdsNone(lines[..|lines| - 1]);
    }
  }

  /** The serials of the rows, whatever their states. */
  lemma {:induction false} TabIdsRows(ids: seq<string>, states: seq<string>)
    requires Fields(ids, states)
    ensures TabIds(Rows(ids, states)) == ids
    decreases |ids|
  {
    if ids != [] {
      var n := |ids| - 1;
      var rows := Rows(ids, states);
      RowsPrefix(ids, states, n);
      TabIdsRows(ids[..n], states[..n]);
      RowId(ids[n], states[n]);
      FrontLast(rows);
      FrontLast(ids);
    }
  }

  /** A row holds a tab, and the text before its first tab is the serial. */
  lemma RowId(id: string, state: string)
    requires '\t' !in id
    ensures '\t' in Row(id, state) && Before(Row(id, state), '\t') == id
  {
    var row := Row(id, state);
    assert row[|id|] == '\t';
    assert row[..|id|] == id;
    SplitOnceAt(row, '\t', |id|);
  }

  function DeviceIds(output: string): (r: seq<string>)
  {
    TabIds(Split(output, '\n'))
  }

  /** Reading back a report gives every serial in order, whatever its state:
      the header and the blank line hold no tab. */
  lemma DeviceIdsOfReport(ids: seq<string>, states: seq<string>)
    requires Fields(ids, states)
    ensures DeviceIds(Report(ids, states)) == ids
  {
    ReportLines(ids, states);
    HeaderHasNoTab();
    TabIdsFramed(Header, Rows(ids, states));
    TabIdsRows(ids, states);
  }

  /** A tab-free header line and two empty lines around the rows add no ids. */
  lemma TabIdsFramed(header: string, rows: seq<string>)
    requires '\t' !in header
    ensures TabIds([header] + rows + ["", ""]) == TabIds(rows)
  {
    TabIdsAppend([header], rows);
    TabIdsAppend([header] + rows, ["", ""]);
    TabIdsNone([header]);
    TabIdsNone(["", ""]);
  }

  // ---------------------------------------------------------------------
  // picking one
  // ---------------------------------------------------------------------

  /** How `select_device()` ends. `Rejected` is the "Invalid selection" or
      `int()` error, `NoInput` end of input at the prompt; the script exits
      in every case but `Picked`. */
  datatype Selection = NoDevices | Picked(id: string) | Rejected | NoInput

  /** The typed line is a number in `1..count`. */
  predicate InRange(answer: string, count: nat)
  {
    var n := ParseInt(answer);
    n.Some? && 1 <= n.value <= count
  }

  function SelectDevice(output: string, answer: Option<string>): (s: Selection)
    ensures s.NoDevices? <==> DeviceIds(output) == []
    ensures |DeviceIds(output)| == 1 ==> s == Picked(DeviceIds(output)[0])
    ensures s.NoInput? <==> |DeviceIds(output)| >= 2 && answer.None?
    ensures |DeviceIds(output)| >= 2 && answer.Some? ==> (s.Picked? <==> InRange(answer.value, |DeviceIds(output)|))
    ensures s.Picked? ==> s.id in DeviceIds(output)
    ensures s.Picked? && |DeviceIds(output)| >= 2 ==>
      s.id == DeviceIds(output)[ParseInt(answer.value).value - 1]
  {
    var ids := DeviceIds(output);
    if |ids| == 0 then NoDevices
    else if |ids| == 1 then Picked(ids[0])
    else
      match answer
      case None => NoInput
      case Some(a) =>
        var n := ParseInt(a);
        if n.None? || n.value < 1 || n.value > |ids| then Rejected
        else Picked(ids[n.value - 1])
  }

  /** The number printed before a device picks it: the list is shown
      starting at 1, and typing `k + 1` gives `ids[k]`. */
  lemma NumberPicks(output: string, k: nat)
    requires 2 <= |DeviceIds(output)| && k < |DeviceIds(output)|
    ensures SelectDevice(output, Some(NatToString(k + 1))) == Picked(DeviceIds(output)[k])
  {
    ParseIntToString(k + 1);
    assert IntToString(k + 1) == NatToString(k + 1);
  }

  /** `main()`'s guard: an empty serial counts as no device as well. */
  function Chosen(output: string, answer: Option<string>): (d: Option<string>)
    ensures d.Some? <==> SelectDevice(output, answer).Picked? && SelectDevice(output, answer).id != ""
    ensures d.Some? ==> d.value in DeviceIds(output) && d.value != ""
  {
    var s := SelectDevice(output, answer);
    if s.Picked? && s.id != "" then Some(s.id) else None
  }

  /** With a single connected device nothing is read from the console. */
  lemma SingleDeviceNoPrompt(id: string, state: string, answer: Option<string>)
    requires Field(id) && Field(state)
    ensures Chosen(Report([id], [state]), answer) == Some(id)
  {
    DeviceIdsOfReport([id], [state]);
  }
}
