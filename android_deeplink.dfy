/** android/android_deeplink.py: open a deeplink on the chosen device with
    `adb shell am start -d`. */
module AndroidDeeplink {
  import opened Strings
  import AdbSelect

  /** The link: the stripped first argument when there is one, else the
      stripped typed line; an empty link (or end of input) gives none. */
  function Deeplink(args: seq<string>, typed: Option<string>): (link: Option<string>)
    ensures link.Some? ==> link.value != ""
    ensures |args| > 0 ==> (link.Some? <==> Strip(args[0]) != "")
    ensures |args| > 0 && link.Some? ==> link.value == Strip(args[0])
    ensures |args| == 0 ==> (link.Some? <==> typed.Some? && Strip(typed.value) != "")
    ensures |args| == 0 && link.Some? ==> link.value == Strip(typed.value)
  {
    var source := if |args| > 0 then Some(args[0]) else typed;
    match source
    case None => None
    case Some(s) => if Strip(s) == "" then None else Some(Strip(s))
  }

  /** The shell command, with the link in double quotes. It holds exactly
      one quoted part, and that part is the link, when neither the serial nor
      the link holds a double quote. */
  function Command(id: string, link: string): (r: string)
    ensures '"' !in id && '"' !in link ==> Split(r, '"') == ["adb -s " + id + " shell am start -d ", link, ""]
  {
    var head := "adb -s " + id + " shell am start -d ";
    QuotedSplit(head, link);
    assert head + "\"" + link + "\"" == "adb -s " + id + " shell am start -d \"" + link + "\"";
    head + "\"" + link + "\""
  }

  lemma QuotedSplit(head: string, link: string)
    ensures '"' !in head && '"' !in link ==> Split(head + "\"" + link + "\"", '"') == [head, link, ""]
  {
    if '"' !in head && '"' !in link {
      var parts := [head, link, ""];
      assert parts[1..] == [link, ""] && parts[1..][1..] == [""];
      assert Join([""], "\"") == "";
      assert Join([link, ""], "\"") == link + "\"" + "";
      assert Join(parts, "\"") == head + "\"" + link + "\"";
      SplitJoin(parts, '"');
    }
  }

  /** `main()`: `args` are the arguments after the script name, `typed` the
      line read when there are none. */
  function RunScript(output: string, answer: Option<string>, args: seq<string>, typed: Option<string>): (cmd: Option<string>)
    ensures cmd.Some? <==> AdbSelect.Chosen(output, answer).Some? && Deeplink(args, typed).Some?
    ensures cmd.Some? ==> cmd.value == Command(AdbSelect.Chosen(output, answer).value, Deeplink(args, typed).value)
  {
    match AdbSelect.Chosen(output, answer)
    case None => None
    case Some(id) =>
      match Deeplink(args, typed)
      case None => None
      case Some(link) => Some(Command(id, link))
  }

  /** A command-line argument wins over the console: nothing typed matters. */
  lemma ArgumentWins(args: seq<string>, typed1: Option<string>, typed2: Option<string>)
    requires |args| > 0
    ensures Deeplink(args, typed1) == Deeplink(args, typed2)
  {
  }
}
