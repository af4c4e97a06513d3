/** android/screencast.py: mirror the chosen device with scrcpy. */
module Screencast {
  import opened Strings
  import AdbSelect

  /** `main()`: scrcpy is started with exactly `-s <serial>`. */
  function RunScript(output: string, answer: Option<string>): (argv: Option<seq<string>>)
    ensures argv.Some? <==> AdbSelect.Chosen(output, answer).Some?
    ensures argv.Some? ==> argv.value == ["scrcpy", "-s", AdbSelect.Chosen(output, answer).value]
  {
    match AdbSelect.Chosen(output, answer)
    case None => None
    case Some(id) => Some(["scrcpy", "-s", id])
  }

  /** scrcpy mirrors one of the listed devices: with a single device that is
      the one, whatever is typed. */
  lemma MirrorsListedDevice(output: string, answer: Option<string>)
    requires RunScript(output, answer).Some?
    ensures RunScript(output, answer).value[2] in AdbSelect.DeviceIds(output)
    ensures |AdbSelect.DeviceIds(output)| == 1 ==> RunScript(output, answer).value[2] == AdbSelect.DeviceIds(output)[0]
  {
  }
}
