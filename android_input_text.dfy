/** android/android_input_text.py: type a line of text on the chosen device
    with `adb shell input text`. */
module AndroidInputText {
  import opened Strings
  import AdbSelect

  /** `send_text_to_device`'s argv: the text is one argument, never split. */
  function InputArgv(id: string, text: string): (argv: seq<string>)
    ensures |argv| == 7 && argv[2] == id && argv[6] == text
    ensures argv[..6] == ["adb", "-s", id, "shell", "input", "text"]
  {
    ["adb", "-s", id, "shell", "input", "text", text]
  }

  /** The message for adb's return code. */
  function Outcome(returncode: int, stderr: string): (m: string)
    ensures m == "Text input successfully." <==> returncode == 0
  {
    if returncode == 0 then "Text input successfully."
    else "Failed to input text. Error: " + stderr
  }

  /** `main()`: the device is chosen first, then the text is read;
      end of input at the text prompt ends the script. */
  function RunScript(output: string, answer: Option<string>, text: Option<string>): (argv: Option<seq<string>>)
    ensures argv.Some? <==> AdbSelect.Chosen(output, answer).Some? && text.Some?
    ensures argv.Some? ==> argv.value == InputArgv(AdbSelect.Chosen(output, answer).value, text.value)
  {
    match AdbSelect.Chosen(output, answer)
    case None => None
    case Some(id) =>
      match text
      case None => None
      case Some(t) => Some(InputArgv(id, t))
  }

  /** Whatever the text holds — spaces, quotes, an empty line — the command
      line has the same shape and the text arrives as one argument. */
  lemma TextArrivesWhole(id: string, t1: string, t2: string)
    ensures InputArgv(id, t1)[..6] == InputArgv(id, t2)[..6]
    ensures InputArgv(id, t1) == InputArgv(id, t2) <==> t1 == t2
  {
  }
}
