/** android/android-record.py: record the screen of the chosen device to a
    file named after one timestamp, then pull that file into the current
    directory under its base name. */
module AndroidRecord {
  import opened Strings
  import AdbSelect
  import Paths

  /** The file written on the device for timestamp `t`. */
  function DeviceVideo(t: string): string
  {
    "/sdcard/video-" + t + ".mp4"
  }

  /** The file written locally for timestamp `t`. */
  function LocalVideo(t: string): string
  {
    "video-" + t + ".mp4"
  }

  /** The two commands of a recording: `screenrecord` on the device, then
      `pull` of the same file. */
  datatype Recording = Recording(record: seq<string>, pull: seq<string>)

  /** `main()`: nothing runs unless a device is chosen. `t` is the one
      `strftime` value both file names use. The prompt that stops the
      recording is taken as answered: at the end of input it raises before
      the pull. */
  function RunScript(output: string, answer: Option<string>, t: string): (r: Option<Recording>)
    ensures r.Some? <==> AdbSelect.Chosen(output, answer).Some?
    ensures r.Some? ==> |r.value.record| == 6 && |r.value.pull| == 6
    ensures r.Some? ==> r.value.record[2] == r.value.pull[2] == AdbSelect.Chosen(output, answer).value
    ensures r.Some? ==> r.value.record[5] == r.value.pull[4] == DeviceVideo(t)
    ensures r.Some? ==> r.value.pull[5] == LocalVideo(t)
    ensures r.Some? ==>
      var id := AdbSelect.Chosen(output, answer).value;
      r.value == Recording(["adb", "-s", id, "shell", "screenrecord", DeviceVideo(t)],
                           ["adb", "-s", id, "pull", DeviceVideo(t), LocalVideo(t)])
  {
    match AdbSelect.Chosen(output, answer)
    case None => None
    case Some(id) =>
      Some(Recording(["adb", "-s", id, "shell", "screenrecord", DeviceVideo(t)],
                     ["adb", "-s", id, "pull", DeviceVideo(t), LocalVideo(t)]))
  }

  /** The local file is the recorded file's own name in the current
      directory: both come from the same timestamp. */
  lemma PulledUnderOwnName(t: string)
    requires '/' !in t
    ensures Paths.Split(DeviceVideo(t)) == ("/sdcard", LocalVideo(t))
  {
    assert DeviceVideo(t) == Paths.Join("/sdcard", LocalVideo(t));
    assert '/' !in LocalVideo(t);
    Paths.SplitJoin("/sdcard", LocalVideo(t));
  }

  /** The timestamp reads back from either name, so different timestamps
      never share a file. */
  lemma TimestampReadsBack(t: string)
    ensures LocalVideo(t)[6..|LocalVideo(t)| - 4] == t
    ensures DeviceVideo(t)[14..|DeviceVideo(t)| - 4] == t
  {
  }
}
