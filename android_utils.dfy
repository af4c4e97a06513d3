/** android/android_utils.py: `selectAdbDevice()`, the older device picker.
    It keeps the lines ending in "device" and, with several devices, indexes
    the list with the typed number minus one without checking the range. */
module AndroidUtils {
  import opened Strings
  import AdbSelect

  /** The serial of every line ending in "device", in order. */
  function ReadyIds(lines: seq<string>): (r: seq<string>)
    ensures |r| <= |lines|
    ensures forall k :: 0 <= k < |r| ==> '\t' !in r[k]
  {
    if lines == [] then []
    else
      var last := lines[|lines| - 1];
      ReadyIds(lines[..|lines| - 1]) + (if EndsWith(last, "device") then [Before(last, '\t')] else [])
  }

  function DeviceIds(output: string): seq<string>
  {
    ReadyIds(Split(output, '\n'))
  }

  /** How `selectAdbDevice()` ends. `Crash` is the uncaught `ValueError`,
      `IndexError` or end of input. */
  datatype Outcome = NoDevice | Selected(id: string) | Crash

  /** `xs[i]` with Python's reading of a negative index; `None` is `IndexError`. */
  function PyIndex(xs: seq<string>, i: int): (r: Option<string>)
    ensures r.Some? <==> -|xs| <= i < |xs|
    ensures 0 <= i < |xs| ==> r == Some(xs[i])
    ensures -|xs| <= i < 0 ==> r == Some(xs[|xs| + i])
  {
    if 0 <= i < |xs| then Some(xs[i])
    else if -|xs| <= i < 0 then Some(xs[|xs| + i])
    else None
  }

  /** `selectAdbDevice()` as written: the typed number is used as an index
      after subtracting one, whatever its value. */
  function SelectAdbDeviceAsWritten(output: string, answer: Option<string>): (o: Outcome)
    ensures o.NoDevice? <==> DeviceIds(output) == []
    ensures |DeviceIds(output)| == 1 ==> o == Selected(DeviceIds(output)[0])
    ensures o.Selected? ==> o.id in DeviceIds(output)
    // with several devices: an integer n in -len+1..len selects, anything else crashes
    ensures |DeviceIds(output)| >= 2 ==>
      (o.Selected? <==> answer.Some? && ParseInt(answer.value).Some?
                        && -|DeviceIds(output)| < ParseInt(answer.value).value <= |DeviceIds(output)|)
    ensures |DeviceIds(output)| >= 2 ==> (o.Crash? <==> !o.Selected?)
    // 1..len picks device n; 0 and below count back from the end
    ensures |DeviceIds(output)| >= 2 && o.Selected? && ParseInt(answer.value).value >= 1 ==>
      o.id == DeviceIds(output)[ParseInt(answer.value).value - 1]
    ensures |DeviceIds(output)| >= 2 && o.Selected? && ParseInt(answer.value).value <= 0 ==>
      o.id == DeviceIds(output)[|DeviceIds(output)| + ParseInt(answer.value).value - 1]
  {
    var ids := DeviceIds(output);
    if |ids| == 0 then NoDevice
    else if |ids| == 1 then Selected(ids[0])
    else if answer.None? || ParseInt(answer.value).None? then Crash
    else
      match PyIndex(ids, ParseInt(answer.value).value - 1)
      case None => Crash
      case Some(id) => Selected(id)
  }

  /** Typing 0 does not fail: index -1 is the last device. */
  lemma ZeroSelectsLast(output: string)
    requires |DeviceIds(output)| >= 2
    ensures SelectAdbDeviceAsWritten(output, Some("0")) == Selected(DeviceIds(output)[|DeviceIds(output)| - 1])
  {
    ParseZero();
    var ids := DeviceIds(output);
    assert PyIndex(ids, 0 - 1) == Some(ids[|ids| - 1]);
  }

  lemma ParseZero()
    ensures ParseInt("0") == Some(0)
  {
    assert Strip("0") == "0";
    assert DigitsValue("0") == 0;
  }

  /** The corrected picker: only a number in `1..len` selects, as the
      `select_device()` copies check. */
  function SelectAdbDevice(output: string, answer: Option<string>): (o: Outcome)
    ensures o.NoDevice? <==> DeviceIds(output) == []
    ensures |DeviceIds(output)| == 1 ==> o == Selected(DeviceIds(output)[0])
    ensures o.Selected? && |DeviceIds(output)| >= 2 ==>
      answer.Some? && AdbSelect.InRange(answer.value, |DeviceIds(output)|)
      && o.id == DeviceIds(output)[ParseInt(answer.value).value - 1]
    ensures |DeviceIds(output)| >= 2 && answer.Some? && AdbSelect.InRange(answer.value, |DeviceIds(output)|) ==> o.Selected?
  {
    var ids := DeviceIds(output);
    if |ids| == 0 then NoDevice
    else if |ids| == 1 then Selected(ids[0])
    else if answer.Some? && AdbSelect.InRange(answer.value, |ids|) then Selected(ids[ParseInt(answer.value).value - 1])
    else Crash
  }

  /** The correction changes nothing for numbers in range, and turns every
      other line into a failure instead of a wrap-around pick. */
  lemma CorrectionAgrees(output: string, answer: Option<string>)
    ensures answer.Some? && AdbSelect.InRange(answer.value, |DeviceIds(output)|) ==>
      SelectAdbDevice(output, answer) == SelectAdbDeviceAsWritten(output, answer)
    ensures |DeviceIds(output)| >= 2 && !(answer.Some? && AdbSelect.InRange(answer.value, |DeviceIds(output)|)) ==>
      SelectAdbDevice(output, answer) == Crash
  {
  }

  // ---------------------------------------------------------------------
  // reading back what `adb devices` prints
  // ---------------------------------------------------------------------

  /** The serials whose state ends in "device". */
  function ReadyOf(ids: seq<string>, states: seq<string>): (r: seq<string>)
    requires |ids| == |states|
  {
    if ids == [] then []
    else
      var n := |ids| - 1;
      ReadyOf(ids[..n], states[..n]) + (if EndsWith(states[n], "device") then [ids[n]] else [])
  }

  /** A row ends in "device" exactly when its state does: the word holds no tab. */
  lemma RowEndsWithDevice(id: string, state: string)
    ensures EndsWith(AdbSelect.Row(id, state), "device") <==> EndsWith(state, "device")
  {
    var row := AdbSelect.Row(id, state);
    if |state| >= 6 {
      assert row[|row| - 6..] == state[|state| - 6..];
    } else {
      assert row[|id|] == '\t';
      assert "device"[|id| - (|row| - 6)] != '\t';
    }
  }

  lemma {:induction false} ReadyIdsAppend(a: seq<string>, b: seq<string>)
    ensures ReadyIds(a + b) == ReadyIds(a) + ReadyIds(b)
    decreases |b|
  {
    if b == [] {
      assert a + b == a;
    } else {
      assert (a + b)[..|a + b| - 1] == a + b[..|b| - 1];
      ReadyIdsAppend(a, b[..|b| - 1]);
    }
  }

  lemma {:induction false} ReadyIdsRows(ids: seq<string>, states: seq<string>)
    requires AdbSelect.Fields(ids, states)
    ensures ReadyIds(AdbSelect.Rows(ids, states)) == ReadyOf(ids, states)
    decreases |ids|
  {
    if ids != [] {
      var n := |ids| - 1;
      var rows := AdbSelect.Rows(ids, states);
      AdbSelect.RowsPrefix(ids, states, n);
      ReadyIdsRows(ids[..n], states[..n]);
      RowEndsWithDevice(ids[n], states[n]);
      AdbSelect.RowId(ids[n], states[n]);
      assert rows[n] == AdbSelect.Row(ids[n], states[n]);
    }
  }

  lemma HeaderNotReady()
    ensures ReadyIds([AdbSelect.Header]) == [] && ReadyIds(["", ""]) == []
  {
    assert [AdbSelect.Header][..0] == [];
    assert AdbSelect.Header[|AdbSelect.Header| - 6..] == "tached";
    assert ["", ""][..1] == [""] && [""][..0] == [];
  }

  /** Reading back a report gives the serials in the "device" state, in
      order: "offline" and "unauthorized" lines and the header drop out. */
  lemma DeviceIdsOfReport(ids: seq<string>, states: seq<string>)
    requires AdbSelect.Fields(ids, states)
    ensures DeviceIds(AdbSelect.Report(ids, states)) == ReadyOf(ids, states)
  {
    AdbSelect.ReportLines(ids, states);
    var rows := AdbSelect.Rows(ids, states);
    assert DeviceIds(AdbSelect.Report(ids, states)) == ReadyIds([AdbSelect.Header] + rows + ["", ""]);
    ReadyIdsAppend([AdbSelect.Header], rows);
    ReadyIdsAppend([AdbSelect.Header] + rows, ["", ""]);
    HeaderNotReady();
    ReadyIdsRows(ids, states);
  }
}
