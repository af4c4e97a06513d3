# toolscripts in Dafny

A model of the logic inside the command-line helper scripts of the
toolscripts repository. The repository has no single engine; it is a
collection of small Python scripts for git, Android, iOS, npm, Base64
credentials, Markdown, Mermaid, PDF cropping and settings files. Each core
script is one Dafny module named after it. A few modules are shared by
several scripts:

- `Strings`: Python `str` operations over `seq<char>` (strip, split,
  splitlines, replace, `int()`, decimal rendering).
- `Paths`: `os.path` and `pathlib` name arithmetic.
- `FileTree`: a directory tree as `os.listdir` sees it.
- `Menu`: the numeric re-prompt loop.
- `AdbSelect`: the `select_device` function copied into four Android scripts.
- `Base64` and `Utf8`: RFC 4648 section 4 and RFC 3629 section 3.

Everything a script gets from outside is a parameter of the model:

- what a subprocess prints, and its return code;
- the lines typed at the console, as a finite sequence;
- directory listings and file trees;
- JSON documents, already parsed;
- environment variables.

What a script hands to the outside world is the result of the model: the
clipboard payload, the argument vector or shell string of a command, or the
new content of a settings file. The code is imperative where the script
loops or mutates, so those parts become methods with loop invariants:

- the log, device and listing parsers;
- the success/failure partition of branch deletion;
- the npm-root cache, a class with one field;
- the settings-file update, a class whose content is replaced;
- the directory walks.

Each such method is proved against a specification function. The
properties the scripts promise are stated as lemmas about those functions:

- parse-after-print round trips for every parser;
- Base64 decode-after-encode;
- partitions and counts;
- "nothing else changes".

## Model

| member | source | states |
|---|---|---|
| `AdbSelect.Rows` | android/screencast.py:9-12 | the device lines of an `adb devices` listing: row k is serial k, a tab, state k |
| `AdbSelect.ReportLines` | android/screencast.py:11 | `split('\n')` of a listing gives back its header, its rows and the trailing empty pieces |
| `AdbSelect.TabIds` | android/screencast.py:11-12 | keeping the lines that hold a tab and cutting each at its first tab yields tab-free serials, never more than there were lines |
| `AdbSelect.TabIdsRows` | android/screencast.py:11-12 | the serials of a run of device rows are exactly their serials, in order, whatever the states |
| `AdbSelect.DeviceIdsOfReport` | android/screencast.py:9-12 | reading a listing back gives every listed serial in order; the header and blank line contribute none |
| `AdbSelect.SelectDevice` | android/screencast.py:14-36 | no devices ends the script, one device is taken without a prompt, with several the answer must be an integer in 1..len and picks device answer-1; anything else is rejected |
| `AdbSelect.NumberPicks` | android/screencast.py:23-36 | typing the number printed in front of device k picks device k |
| `AdbSelect.Chosen` | android/screencast.py:39-42 | `main()` carries on exactly when a listed, non-empty serial was picked |
| `AdbSelect.SingleDeviceNoPrompt` | android/screencast.py:18-19 | with a single connected device the typed answer is irrelevant and that device is used |
| `Screencast.RunScript` | android/screencast.py:38-47 | scrcpy runs exactly when a device was chosen, with argv `scrcpy -s <serial>` |
| `Screencast.MirrorsListedDevice` | android/screencast.py:38-47 | the mirrored serial is one of the listed devices, and the only one when a single device is connected |
| `AndroidDeeplink.Deeplink` | android/android_deeplink.py:43-49 | the link is the stripped first argument if there is one, else the stripped typed line; an empty link stops the script |
| `AndroidDeeplink.Command` | android/android_deeplink.py:51 | when neither the serial nor the link holds a double quote, the command's only double-quoted part is the link |
| `AndroidDeeplink.RunScript` | android/android_deeplink.py:37-53 | a command is run exactly when a device and a non-empty link were obtained, and it is `adb -s <serial> shell am start -d "<link>"` |
| `AndroidDeeplink.ArgumentWins` | android/android_deeplink.py:43-46 | when an argument is given, nothing typed at the console affects the link |
| `AndroidUtils.ReadyIds` | android/android_utils.py:6 | the serials of the lines ending in "device", cut at the tab, in order |
| `AndroidUtils.PyIndex` | android/android_utils.py:23 | Python list indexing: defined exactly for -len..len-1, negative indices counting from the end |
| `AndroidUtils.SelectAdbDeviceAsWritten` | android/android_utils.py:3-26 | as written: no device gives None, one device is taken directly, otherwise the typed number minus one indexes the list unchecked |
| `AndroidUtils.ZeroSelectsLast` | android/android_utils.py:22-23 | typing 0 with two or more devices silently selects the last device |
| `AndroidUtils.SelectAdbDevice` | android/android_utils.py:3-26 | corrected: with several devices only a number in 1..len selects, and it selects device number-1 |
| `AndroidUtils.CorrectionAgrees` | android/android_utils.py:22-23 | the correction agrees with the code for every answer in range and fails for every other answer |
| `AndroidUtils.ReadyIdsRows` | android/android_utils.py:6 | rows contribute their serial exactly when their state ends in "device" |
| `AndroidUtils.DeviceIdsOfReport` | android/android_utils.py:4-6 | reading a listing back gives the serials in the "device" state in order; offline and unauthorized ones and the header drop out |
| `AndroidInputText.InputArgv` | android/android_input_text.py:40-49 | the argv is `adb -s <serial> shell input text` followed by the whole text as a single seventh argument |
| `AndroidInputText.Outcome` | android/android_input_text.py:50-53 | the success message is printed exactly when adb's return code is 0 |
| `AndroidInputText.RunScript` | android/android_input_text.py:56-64 | the text is sent exactly when a device was chosen and a line was read, and to that device |
| `AndroidInputText.TextArrivesWhole` | android/android_input_text.py:45-46 | the command's shape does not depend on the text, and different texts give different commands |
| `AndroidRecord.RunScript` | android/android-record.py:41-73 | recording needs a chosen device; the two argvs are exactly `adb -s <id> shell screenrecord /sdcard/video-<t>.mp4` and `adb -s <id> pull /sdcard/video-<t>.mp4 video-<t>.mp4`, so both address the same device and file |
| `AndroidRecord.PulledUnderOwnName` | android/android-record.py:48-49 | the local file is the device file's base name, in the current directory |
| `AndroidRecord.TimestampReadsBack` | android/android-record.py:48-63 | both file names carry the timestamp verbatim at a fixed place |
| `Simulator.FirstGroup` | ios/simulator.py:19 | the non-greedy group is the text right after the first '(' up to the next ')', holding no ')' itself |
| `Simulator.FirstGroupFound` | ios/simulator.py:17-19 | when a ')' follows the first '(' the search succeeds |
| `Simulator.Classify` | ios/simulator.py:15-21 | a line starting "--" is a runtime header named by the line stripped of '-' and ' '; a line with '(' and ')' is a device whose name is the stripped text before the first '(', whose id is the first group and which is booted iff the line contains "Booted"; a device line whose ')' all come before the first '(' crashes the search |
| `Simulator.RuntimeLeTotal` | ios/simulator.py:24 | the runtime component of the sort key orders any two runtimes |
| `Simulator.RuntimeLeAntisym` | ios/simulator.py:24 | runtimes ordered both ways are equal |
| `Simulator.RuntimeLeTrans` | ios/simulator.py:24 | the runtime order is transitive |
| `Simulator.KeyLeTotal` | ios/simulator.py:24 | the sort key (not booted, runtime, name) orders any two devices |
| `Simulator.KeyLeTrans` | ios/simulator.py:24 | the sort key order is transitive |
| `Simulator.Insert` | ios/simulator.py:24 | inserting into a sorted list keeps it sorted and adds exactly that device |
| `Simulator.SortDevices` | ios/simulator.py:24 | `sorted` returns an ordered permutation of the devices |
| `Simulator.SortedOrdersAll` | ios/simulator.py:24 | in the sorted list every earlier device is at most every later one |
| `Simulator.SortedBootedFirst` | ios/simulator.py:23-24 | booted devices come before shut-down ones, and within one boot state runtimes ascend |
| `Simulator.ListDevices` | ios/simulator.py:9-24 | the loop fails exactly when a device line cannot be searched, and otherwise returns the parsed devices, each tagged with the latest runtime header, as a sorted permutation |
| `Simulator.ListingStep` | ios/simulator.py:14-21 | one more line updates the current runtime on a header, appends a device tagged with the current runtime on a device line, fails on an unsearchable line and leaves the rest alone |
| `Simulator.ParsedStopsAt` | ios/simulator.py:19 | one unsearchable device line anywhere makes the whole listing fail |
| `Simulator.RuntimeIsLatestHeader` | ios/simulator.py:13-16 | the runtime in force is the one named by the most recent header line |
| `Simulator.RuntimeBeforeHeaders` | ios/simulator.py:13 | before the first header the runtime is None |
| `Simulator.HeaderRoundTrip` | ios/simulator.py:15-16 | a "-- <runtime> --" header reads back as that runtime |
| `Simulator.NoBootedWithoutB` | ios/simulator.py:20 | text without a 'B' never contains "Booted" |
| `Simulator.DeviceTextName` | ios/simulator.py:18 | the name of a printed device line reads back |
| `Simulator.DeviceTextGroup` | ios/simulator.py:19 | the id of a printed device line reads back as the first group |
| `Simulator.DeviceTextBooted` | ios/simulator.py:20 | a printed device line counts as booted exactly when its state is "Booted" |
| `Simulator.DeviceRoundTrip` | ios/simulator.py:17-21 | a device line printed as `    <name> (<id>) (<state>)` reads back as that name, id and boot state |
| `Simulator.Selected` | ios/simulator.py:43-44 | a choice selects exactly when it is all ASCII digits with value in 1..len, and it selects index value-1 |
| `Simulator.Decide` | ios/simulator.py:37-56 | "0" shuts everything down; a selected booted device only opens the Simulator; a selected shut-down device is booted with its own id; every other answer is invalid |
| `Simulator.Command` | ios/simulator.py:39-54 | every action but an invalid choice runs a command |
| `Simulator.NumberSelects` | ios/simulator.py:29-30 | the number printed before device k selects device k and the action its boot state calls for |
| `Simulator.BootCommandCarriesId` | ios/simulator.py:51-53 | a boot command names the id of a listed, shut-down device |
| `Simulator.ChoiceForms` | ios/simulator.py:39-44 | "01" selects the first device, while " 1" and "00" are invalid |
| `BatchInstall.ReadySerial` | android/batch_install.py:33-38 | a line yields a serial only when it is not the header, not blank, and its second word is "device"; the serial is its first word, non-empty and without whitespace |
| `BatchInstall.Serials` | android/batch_install.py:31-39 | at most one serial per line |
| `BatchInstall.GetAdbDevices` | android/batch_install.py:25-39 | the loop over the stripped output's lines collects exactly the serial of every ready line, in order |
| `BatchInstall.SerialsAppend` | android/batch_install.py:32-38 | the serials of a listing are the serials of its parts, concatenated |
| `BatchInstall.RowSerial` | android/batch_install.py:34-38 | a `serial<TAB>state` row yields its serial exactly when the state is "device" |
| `BatchInstall.RowsSerials` | android/batch_install.py:32-38 | rows yield the serials whose state is "device", in order |
| `BatchInstall.ReportBody` | android/batch_install.py:32 | stripping a listing removes only its trailing blank lines |
| `BatchInstall.DevicesOfReport` | android/batch_install.py:25-39 | reading a listing back gives exactly the devices in the "device" state, in order; the header, offline and unauthorized devices drop out |
| `BatchInstall.LastPattern` | android/batch_install.py:49-53 | a device has a pattern exactly when some entry has a truthy name equal to it and a truthy pattern, and that pattern is non-empty |
| `BatchInstall.Mapping` | android/batch_install.py:48-54 | the lookup holds exactly the devices that have a pattern, each mapped to its pattern |
| `BatchInstall.LoadDeviceMapping` | android/batch_install.py:42-54 | the loop builds exactly that lookup |
| `BatchInstall.LaterEntryWins` | android/batch_install.py:52-53 | a later usable entry for the same device overwrites the earlier pattern; an unusable or unrelated entry changes nothing |
| `BatchInstall.FindApkFile` | android/batch_install.py:57-64 | the result is the first listed file ending in ".apk" that fully matches, and None exactly when no file does |
| `BatchInstall.FirstApk` | android/batch_install.py:61-63 | a found file is listed, ends in ".apk" and fully matches |
| `BatchInstall.FirstApkAt` | android/batch_install.py:61-63 | the first picking file in listing order is the one returned |
| `BatchInstall.FirstApkNone` | android/batch_install.py:64 | when no file picks, the search returns None |
| `BatchInstall.InstallFor` | android/batch_install.py:87-95 | a device is installed only if it has a pattern and some listed file picks under it |
| `BatchInstall.Plan` | android/batch_install.py:84-95 | every planned install pairs a device with the APK its pattern selects |
| `BatchInstall.PlanStep` | android/batch_install.py:84-95 | one more device adds one install when it has an APK and nothing otherwise |
| `BatchInstall.PlanCovers` | android/batch_install.py:84-95 | a device is installed exactly when it is listed as ready and has a pattern and a matching APK |
| `BatchInstall.PlanKeepsOrder` | android/batch_install.py:84 | installs happen in the order the devices are listed |
| `BatchInstall.RunScript` | android/batch_install.py:15-97 | the errors come in order: missing argument, missing mapping file, failing adb, no ready device; otherwise the installs are the plan for the ready devices under the loaded mapping |
| `Base64.Encode` | credential/basic_auth.py:19 | `b64encode` output has 4 characters per started 3-byte group, alphabet characters then exactly the standard number of '=' |
| `Base64.Value` | codec/decode_and_format_json.py:13 | a decoded alphabet character maps back to the symbol it encodes |
| `Base64.DecodeEncode` | codec/decode_and_format_json.py:13 | `b64decode` undoes `b64encode` for every byte string |
| `Base64.RunAlphabet` | codec/decode_and_format_json.py:13 | alphabet characters never stop the decoder, and each advances its position within the quad |
| `Base64.DecodeOneOver` | codec/decode_and_format_json.py:8-13 | alphabet text one character past a multiple of four fails to decode however many '=' follow |
| `Base64.Decode` | codec/decode_and_format_json.py:13 | non-ASCII text is refused, and a successful decode yields at most three bytes per four characters |
| `Base64.RunBound` | codec/decode_and_format_json.py:13 | each character the decoder reads adds at most three quarters of a byte to its output |
| `Utf8.EncodeChar` | credential/basic_auth.py:19 | one character encodes to 1-4 bytes, a lead byte and continuation bytes, one byte exactly for ASCII |
| `Utf8.Encode` | credential/basic_auth.py:19 | `str.encode('utf-8')` takes between one and four bytes per character, one for ASCII text |
| `Utf8.DecodeEncode` | codec/decode_and_format_json.py:14 | `bytes.decode('utf-8')` undoes `str.encode('utf-8')` |
| `Utf8.EncodeAppend` | credential/basic_auth.py:19 | encoding is character by character |
| `BasicAuth.CredentialText` | credential/basic_auth.py:16 | the text is the key, one ':' and the secret |
| `BasicAuth.GetBasicAuth` | credential/basic_auth.py:4-21 | the credential is Base64 of the UTF-8 bytes of `key:secret`, with the standard length and padding |
| `BasicAuth.GetBasicAuthRoundTrip` | credential/basic_auth.py:16-19 | decoding the credential gives back the UTF-8 bytes and then the text `key:secret` |
| `BasicAuth.CredentialSplit` | credential/basic_auth.py:16 | for a key without ':' the text splits back at its first ':' into key and secret |
| `BasicAuth.DefaultCredentialsEncoding` | credential/basic_auth.py:23-33 | the default credentials (two empty strings) encode to "Og==" |
| `DecodeJson.Pads` | codec/decode_and_format_json.py:10 | the padding added is that many '=' |
| `DecodeJson.RepairPadding` | codec/decode_and_format_json.py:8-10 | the repaired text has a multiple of four characters, starts with the input and adds fewer than four '=' |
| `DecodeJson.DecodeBase64ToJson` | codec/decode_and_format_json.py:5-23 | when the repaired text decodes to UTF-8 text that parses, the result is the re-dumped JSON; in every other case it is an "Error: " string, with the Base64 message when the decode fails |
| `DecodeJson.RepairKeepsAligned` | codec/decode_and_format_json.py:9 | text whose length is a multiple of four is left as it is |
| `DecodeJson.RepairRestoresPadding` | codec/decode_and_format_json.py:8-10 | stripping the '=' of an encoding and repairing gives the encoding back |
| `DecodeJson.RepairAppends` | codec/decode_and_format_json.py:8-10 | a body short of a multiple of four by p characters gets exactly p '=' |
| `DecodeJson.EncodedJsonDecodes` | codec/decode_and_format_json.py:5-23 | the Base64 of a JSON text, with or without its padding, decodes to the re-dumped JSON, or to the JSON error |
| `DecodeJson.OneOverIsError` | codec/decode_and_format_json.py:5-23 | alphabet text one character past a multiple of four always yields an "Error: " string |
| `JsonFormat.FormattedName` | file/json_format.py:25-26 | the new name inserts "_format" (7 characters) and adds no separator |
| `JsonFormat.FormattedPath` | file/json_format.py:24-27 | the output path splits into the input's directory and the formatted name, and is never the input path |
| `JsonFormat.FormattedNameExamples` | file/json_format.py:25-26 | "data.json" becomes "data_format.json"; ".hidden", which has no extension, becomes ".hidden_format" |
| `JsonFormat.FormattedNameSplitExt` | file/json_format.py:24-26 | for a name without '/', splitting the formatted name again gives the input's base followed by "_format", and the input's own extension |
| `JsonFormat.RunScript` | file/json_format.py:4-34 | a missing file, or one `json.load` rejects, writes nothing; otherwise the target is exactly `FormattedPath(p)`: the input's directory and `<base>_format<ext>`, never the input itself |
| `Paths.Split` | file/json_format.py:24 | `os.path.split`: the tail is the text after the last '/', the head the text before it with trailing slashes removed |
| `Paths.SplitJoin` | file/json_format.py:24-27 | joining a directory with a plain name and splitting again gives both back |
| `Paths.SplitExt` | file/json_format.py:25 | `os.path.splitext`: the two parts concatenate to the input and the extension is '.' and then no '.' or '/' |
| `Paths.SplitExtOfName` | file/json_format.py:25 | a name with a non-dot character before its last dot splits at that dot |
| `Paths.NameOfPlain` | plot/mermaid.py:97 | a path without a separator is its own name |
| `Paths.NameSuffix` | plot/mermaid.py:97 | the suffix is empty or '.' and then no further dot, and stem plus suffix is the name |
| `Menu.FirstAccepted` | git/copy_diff.py:51-60 | the index taken is that of a typed line |
| `Menu.FirstAcceptedIsFirst` | git/copy_diff.py:51-60 | the line taken is acceptable and every earlier line is rejected; with none taken every line is rejected |
| `Menu.NoneAccepted` | git/copy_diff.py:51-60 | when no line is acceptable there is no selection |
| `Menu.Selection` | git/copy_diff.py:51-60 | a selection is always within the accepted range, and there is one exactly when some line is taken |
| `Menu.SelectionExists` | git/copy_diff.py:51-60 | there is a selection exactly when some typed line is acceptable |
| `Menu.After` | git/copy_diff.py:51-60 | the lines the next prompt reads are a proper suffix of the lines: those after the accepted one |
| `Menu.FirstAcceptedAt` | git/copy_diff.py:18-26 | the first acceptable line decides the selection, which is its integer value |
| `Menu.ReadInRange` | git/copy_diff.py:18-26 | the re-prompt loop returns that selection and consumes the lines up to and including the accepted one |
| `CopyDiff.CommitOfLine` | git/copy_diff.py:37-41 | a log line splits at its first space into a space-free hash and the rest; a line without a space is a hash with an empty message |
| `CopyDiff.RecentCommits` | git/copy_diff.py:28-42 | a failed or empty `git log` gives no commits |
| `CopyDiff.GetRecentCommits` | git/copy_diff.py:28-42 | the loop yields one commit per non-empty line of the stripped log, in order |
| `CopyDiff.LogLine` | git/copy_diff.py:37 | a printed `<hash> <message>` line without line breaks |
| `CopyDiff.LogLineRoundTrip` | git/copy_diff.py:37-39 | a `<hash> <message>` line reads back as that commit |
| `CopyDiff.RecentCommitsRoundTrip` | git/copy_diff.py:28-42 | an `--oneline` log of commits reads back as exactly those commits, in order |
| `CopyDiff.CommitsOfLogLines` | git/copy_diff.py:35-41 | the lines of printed commits read back as those commits |
| `CopyDiff.CopyAndExit` | git/copy_diff.py:62-69 | the diff is copied unchanged exactly when it exists and is not whitespace only; otherwise nothing is copied |
| `CopyDiff.StrippedPieces` | git/copy_diff.py:93 | every kept piece is stripped and non-empty |
| `CopyDiff.StrippedPiecesCommaFree` | git/copy_diff.py:93 | stripping comma-free pieces leaves them comma-free |
| `CopyDiff.ParseHashes` | git/copy_diff.py:92-93 | the hashes are stripped, non-empty and comma-free |
| `CopyDiff.ParseHashesJoin` | git/copy_diff.py:93 | hashes typed comma-separated read back as the same list in the same order |
| `CopyDiff.StrippedPiecesPlain` | git/copy_diff.py:93 | already stripped non-empty pieces are all kept, unchanged |
| `CopyDiff.GoodDiffs` | git/copy_diff.py:97-103 | only non-blank successful diffs are collected, at most one per hash |
| `CopyDiff.DiffsPartition` | git/copy_diff.py:98-103 | every hash yields either a collected diff or a warning, never both |
| `CopyDiff.CollectDiffs` | git/copy_diff.py:97-103 | the loop collects exactly the good diffs and warns for exactly the failed hashes |
| `CopyDiff.MultipleCommits` | git/copy_diff.py:91-111 | no hashes copies nothing; no good diff copies nothing; otherwise the good diffs joined by a blank line are copied |
| `CopyDiff.ShowCommit` | git/copy_diff.py:87-89 | a picked commit's copied text is exactly what `git show` printed for its hash |
| `CopyDiff.PickRound` | git/copy_diff.py:79-89 | the commit pick either goes back to the main menu on strictly fewer lines or picks one of the recent commits |
| `CopyDiff.MenuRound` | git/copy_diff.py:120-133 | one pass of the main menu either goes back to it on strictly fewer lines or picks one of the recent commits |
| `CopyDiff.SessionOptions` | git/copy_diff.py:113-133 | no accepted menu answer runs out of input; 0 exits; 1 and 2 copy the staged and the working diff; 4 combines the diffs named on the next line |
| `CopyDiff.SessionPick` | git/copy_diff.py:79-89 | after answer 3, no accepted pick runs out of input, pick 0 goes on with the main menu on the following lines, and pick k in 1..len copies the diff of recent commit k |
| `CopyDiff.SessionPickCommit` | git/copy_diff.py:79-89 | after answer 3, pick k in 1..len copies the diff of recent commit k |
| `CopyDiff.SessionCopies` | git/copy_diff.py:62-69 | whatever the lines, a session copies only text that git printed |
| `CopyDiff.ReadRound` | git/copy_diff.py:120-133 | reading one pass of the main menu from the lines gives exactly that pass's outcome |
| `CopyDiff.ReadPick` | git/copy_diff.py:79-89 | reading the commit pick from the lines gives exactly the pick's outcome |
| `CopyDiff.MenuLoop` | git/copy_diff.py:113-133 | the loop of `main()` ends with the outcome of the session over the same lines |
| `CopyDiff.RunScript` | git/copy_diff.py:113-133 | answer 0 exits; 1 and 2 copy the staged and the working diff; 3 followed by k in 1..len copies the diff of recent commit k; 3 followed by 0 reads the main menu again from the next line; 4 takes its hashes from the line right after the menu answer; whatever is copied is text git printed |
| `NpmTools.NpmRootCache.constructor` | ai/npm-tools.py:53 | the cache starts empty |
| `NpmTools.NpmRootCache.GetNpmRoot` | ai/npm-tools.py:54-59 | `npm root -g` is asked only when nothing is cached or a reset is requested, and the answer is cached and returned; otherwise the cached root is returned without a query |
| `NpmTools.GetInstalledTools` | ai/npm-tools.py:61-76 | no root gives nothing; otherwise exactly the configured tools with a package.json are installed, at their version, "unknown" without one, "error" for an unreadable file |
| `NpmTools.InstalledNames` | ai/npm-tools.py:163 | the installed names are the configured tools that were found |
| `NpmTools.MissingTools` | ai/npm-tools.py:116 | the missing tools are exactly the configured tools that were not found |
| `NpmTools.InstalledOrMissing` | ai/npm-tools.py:116-128 | every configured tool is either installed or missing |
| `NpmTools.SelectFromList` | ai/npm-tools.py:94-111 | an empty list returns nothing without prompting; otherwise running out of answers is the only way to no pick, 0 goes back, and k in 1..len picks exactly item k-1 |
| `NpmTools.Upgrades` | ai/npm-tools.py:145-159 | a tool is reinstalled exactly when it is installed, the latest version is known, and it differs from the installed one |
| `NpmTools.UpgradeAllTools` | ai/npm-tools.py:138-160 | the loop reinstalls exactly those tools |
| `NpmTools.UninstallAll` | ai/npm-tools.py:173-190 | tools are removed only after an answer that lower-cases to "y", and then all installed tools are removed |
| `NpmTools.FnmVersion` | ai/npm-tools.py:203 | a version read from an `fnm list` line is a single non-empty word |
| `NpmTools.FnmVersions` | ai/npm-tools.py:203 | the versions are single words, at most one per line |
| `NpmTools.NvmVersions` | ai/npm-tools.py:249 | one version per listed `nvm ls` line (non-blank and without "->"), each a single word |
| `NpmTools.NvmVersionsAt` | ai/npm-tools.py:249 | version k is the first word of the k-th listed line |
| `NpmTools.FnmVersionsFail` | ai/npm-tools.py:203 | the comprehension raises exactly when some line holds nothing but the markers '*' and "(default)" |
| `NpmTools.FnmVersionOfLine` | ai/npm-tools.py:203 | the version read from an `fnm list` line is that line's version, whichever markers surround it |
| `NpmTools.FnmListingRoundTrip` | ai/npm-tools.py:203 | an `fnm list` listing reads back as exactly its versions, in order |
| `NpmTools.DisplayVersions` | ai/npm-tools.py:213 | one display entry per version, the current one marked " (current)" |
| `NpmTools.CurrentMarkerRoundTrip` | ai/npm-tools.py:213-218 | cutting a display entry at its first space gives back the version, marked or not |
| `NpmTools.PickedVersion` | ai/npm-tools.py:213-218 | picking display entry k manages version k |
| `NpmTools.Dispatch` | ai/npm-tools.py:282-314 | "0" exits, unknown keys are invalid, and version management is offered only outside a child run |
| `NpmTools.MainLoop` | ai/npm-tools.py:276-318 | over the answers given to the main-menu prompt, the loop performs the actions the session function gives |
| `NpmTools.ExitIndex` | ai/npm-tools.py:310-312 | the session stops at the first "0" |
| `NpmTools.SessionUntilExit` | ai/npm-tools.py:276-318 | over the main-menu answers, a top-level session dispatches every choice before the first "0", in order, and nothing after it |
| `NpmTools.SessionChild` | ai/npm-tools.py:289-317 | a child run performs at most one action and never version management |
| `DeleteBranch.ListBranches` | git/delete_branch.py:25-30 | empty output lists no branch; every listed branch is stripped |
| `DeleteBranch.StripEach` | git/delete_branch.py:29 | one stripped entry per line |
| `DeleteBranch.ListBranchesRoundTrip` | git/delete_branch.py:25-30 | the branch names git prints one per line read back as the same list |
| `DeleteBranch.Candidates` | git/delete_branch.py:58-59 | the candidates are exactly the listed branches that start with the prefix |
| `DeleteBranch.PrefixStep` | git/delete_branch.py:52-59 | a blank prefix deletes nothing; otherwise the candidates are selected by the stripped prefix |
| `DeleteBranch.CandidatesAll` | git/delete_branch.py:58-59 | when every branch has the prefix, all are candidates, in order |
| `DeleteBranch.DeleteEach` | git/delete_branch.py:64-70 | the loop sorts every candidate into the successes or the failures, in order |
| `DeleteBranch.DeletionTotals` | git/delete_branch.py:72-74 | successes and failures together number the candidates |
| `DeleteBranch.SuccessesIff` | git/delete_branch.py:66-70 | a branch succeeded exactly when it is a candidate and its delete printed nothing on stderr |
| `DeleteBranch.FailuresIff` | git/delete_branch.py:66-68 | a branch failed exactly when it is a candidate and its delete printed on stderr |
| `DeleteBranch.FailuresCarryStderr` | git/delete_branch.py:66-68 | each failure is reported with its own non-empty stripped stderr |
| `DeleteBranch.ForceTargets` | git/delete_branch.py:76-89 | force deletion happens only after "y" (case- and space-insensitive) and then targets exactly the failed branches |
| `DeleteBranch.PushedNameAsWritten` | git/delete_branch.py:134 | as written: the pushed name is the text after the last '/' |
| `DeleteBranch.PushedNameDropsFolders` | git/delete_branch.py:134 | for "origin/feature/login" the code deletes "login", not "feature/login" |
| `DeleteBranch.PushedNameRoundTrip` | git/delete_branch.py:134 | corrected: the pushed name is everything after the remote's name, so `<remote>/<name>` pushes `<name>` |
| `DeleteBranch.PushedName` | git/delete_branch.py:134 | corrected: a branch without '/' is pushed as it is; otherwise the pushed name is all the text after the first '/' |
| `DeleteBranch.MainDispatch` | git/delete_branch.py:152-172 | "1" fetches, "2" deletes local branches, "3" deletes remote branches, "0" exits, each exactly for its key; everything else is invalid |
| `DeleteBranch.SubDispatch` | git/delete_branch.py:45-56 | "0" returns, "2" asks for a prefix, anything but "0", "1", "2" is ignored |
| `DeleteBranch.RemoteDeleteTargetsWholeName` | git/delete_branch.py:133-134 | corrected: deleting "origin/<name>" pushes the deletion of `<name>` whole |
| `RenameProject.RReplace` | android/rename_project.py:13-15 | with no occurrence the string is unchanged; otherwise the last occurrence (and only it) is replaced |
| `RenameProject.PackageToPath` | android/rename_project.py:80 | same length, every '.' becomes '/', every other character is kept |
| `RenameProject.OnWalkProjectFile` | android/rename_project.py:76-83 | binary files are left alone; a text file gets the dotted and the path form of the package replaced |
| `RenameProject.ReplaceAllSelf` | android/rename_project.py:79 | replacing a pattern by itself changes nothing |
| `RenameProject.RewriteSamePackage` | android/rename_project.py:79-80 | renaming a package to itself leaves every file's text unchanged |
| `RenameProject.RewriteUnrelated` | android/rename_project.py:79-80 | a file that mentions the old package in neither form is unchanged |
| `RenameProject.UpdateDirTree` | android/rename_project.py:63-73 | the move lands at base + "/" + the new package path after base + "/" + the first old segment is removed |
| `RenameProject.UpdateDirTreeAtBoundary` | android/rename_project.py:64 | when the directory ends in "/" + the package path, the base is the directory above the package |
| `RenameProject.OnWalkProjectDir` | android/rename_project.py:85-90 | as written: acts exactly on directories whose path ends with the package path, separator or not |
| `RenameProject.OnWalkProjectDirSuffixMatch` | android/rename_project.py:87 | "xa/b" passes the guard for package "a.b", and is moved into itself ("xa/b/c") |
| `RenameProject.OnWalkProjectDirChecked` | android/rename_project.py:85-90 | corrected: acts exactly on directories ending in "/" + the package path; the base plus the old path is the directory, and the destination is base + the new path |
| `RenameProject.FindFilesRecursively` | android/rename_project.py:17-32 | appends to the given list the accepted files of the tree in walk order |
| `RenameProject.FindDirsRecursively` | android/rename_project.py:35-50 | appends the accepted directories in pre-order, each before its own subdirectories |
| `RenameProject.FilesFilter` | android/rename_project.py:28-30 | walking with a predicate yields the unfiltered walk restricted to the accepted files, order kept |
| `RenameProject.FilesInFilter` | android/rename_project.py:24-30 | the same for a directory listing |
| `RenameProject.EntryFilesFilter` | android/rename_project.py:25-30 | the same for one listing entry |
| `RenameProject.DirsFilter` | android/rename_project.py:44-48 | the directory walk with a predicate is the unfiltered one restricted to accepted directories |
| `RenameProject.DirsInFilter` | android/rename_project.py:42-48 | the same for a directory listing |
| `RenameProject.EntryDirsFilter` | android/rename_project.py:43-48 | the same for one listing entry |
| `RenameProject.NonDirectoryRoot` | android/rename_project.py:21-22 | a root that is not a directory yields no files and no directories |
| `RenameProject.FilesRewrittenAreText` | android/rename_project.py:99 | exactly the non-binary files of the tree are rewritten |
| `RenameProject.DirsMatchedAreChecked` | android/rename_project.py:102 | exactly the directories the corrected guard accepts are moved |
| `ExtractGames.Find` | game/extract_games.py:31-32 | -1 exactly when the character is absent; otherwise the index of its first occurrence |
| `ExtractGames.CleanFilename` | game/extract_games.py:20-56 | the result holds no '(' or '（', has no trailing space and is a prefix of the name |
| `ExtractGames.CleanFilenameCutsAtFirst` | game/extract_games.py:36-51 | the name is cut at the first parenthesis of either kind, then right-stripped |
| `ExtractGames.CleanFilenameNoParen` | game/extract_games.py:46-51 | a name without parentheses is only right-stripped |
| `ExtractGames.CleanFilenameIdempotent` | game/extract_games.py:20-56 | cleaning twice is cleaning once |
| `ExtractGames.CleanFilenameAsciiExample` | game/extract_games.py:23 | "abc(dsfsdf)" becomes "abc" |
| `ExtractGames.CleanFilenameFullWidthExample` | game/extract_games.py:24 | "abc（测试）" becomes "abc" |
| `ExtractGames.CleanFilenameTagsExample` | game/extract_games.py:25 | "abc (简) (v0.99)" becomes "abc" |
| `ExtractGames.TargetsAreMapped` | game/extract_games.py:9-18 | every target extension has a directory and every mapped extension is a target |
| `ExtractGames.DirectoryFor` | game/extract_games.py:12-18 | a directory exactly for the five target extensions, one of nes, snes, n64, gba |
| `ExtractGames.GetTargetDirectory` | game/extract_games.py:58-63 | a directory exactly when the lower-cased extension is a target |
| `ExtractGames.TargetDirectoryIgnoresCase` | game/extract_games.py:62 | "Mario.NES" goes to "nes" |
| `ExtractGames.TargetDirectoryOther` | game/extract_games.py:63 | "readme.txt" has no directory |
| `ExtractGames.TargetExtensionLower` | game/extract_games.py:9 | the target extensions are lower case, a dot and three characters |
| `ExtractGames.TargetPath` | game/extract_games.py:97-108 | an entry is extracted exactly when its extension is a target, to `<dir>/<cleaned zip name><ext>` |
| `ExtractGames.TargetNameKeepsFolder` | game/extract_games.py:102-108 | the target file name maps to the same directory as the entry it came from |
| `ExtractGames.TargetsMembers` | game/extract_games.py:95-108 | a path is a target of a zip exactly when some entry maps to it |
| `ExtractGames.ExtractZip` | game/extract_games.py:95-119 | afterwards the files are the old ones plus the zip's targets, and the count is the number of new files |
| `ExtractGames.NewFileCounts` | game/extract_games.py:111-119 | a target that exists already is skipped and not counted |
| `ExtractGames.ExtractAllZips` | game/extract_games.py:65-133 | the written files are the existing ones plus every archive's targets; the total is the number of new files; the archive count is exactly the number of archives that wrote a new file |
| `ExtractGames.ZipsCounted` | game/extract_games.py:84-126 | the archive count is never more than the number of archives |
| `ExtractGames.CountedStep` | game/extract_games.py:124-126 | an archive adds one to the count exactly when it wrote a file that was not there before |
| `ListIncludeDirs.IncludeDirs` | cpp/list_include_dirs.py:3-15 | every collected path ends in "include" |
| `ListIncludeDirs.FindIncludeDirRecursively` | cpp/list_include_dirs.py:3-15 | appends to the given list the include directories of the listing, in walk order |
| `ListIncludeDirs.IncludeDirsAreDirs` | cpp/list_include_dirs.py:9-11 | every collected path is a directory of the tree |
| `ListIncludeDirs.NoneIffNoMatch` | cpp/list_include_dirs.py:9-13 | nothing is collected exactly when no directory of the tree ends in "include" |
| `ListIncludeDirs.MatchedNotDescended` | cpp/list_include_dirs.py:10-13 | a matching directory is collected whole and its contents are not searched |
| `ListIncludeDirs.IncludeDirsExactly` | cpp/list_include_dirs.py:3-15 | a path is collected exactly when the walk visits it and it ends in "include": every such directory is reported, and nothing else |
| `ListIncludeDirs.EntryIncludeExactly` | cpp/list_include_dirs.py:9-13 | the same for one listing entry |
| `ExtractGames.ExtractNextZip` | game/extract_games.py:84-129 | one pass of the outer loop keeps the written files, the total and the archive count equal to their values over the archives done so far |
| `Markdown.HeaderCells` | document/markdown.py:43 | one header cell per column (none for a negative count) |
| `Markdown.SeparatorCells` | document/markdown.py:44 | one delimiter cell per column |
| `Markdown.BodyCells` | document/markdown.py:45 | one cell per column in each body row |
| `Markdown.BodyRows` | document/markdown.py:45 | one body line per row |
| `Markdown.JoinPadded` | document/markdown.py:43-45 | the " \| "-joined cells are the '\|'-joined space-padded cells |
| `Markdown.StripPadded` | document/markdown.py:43-45 | a plain cell is recovered by stripping its padding |
| `Markdown.RowSplit` | document/markdown.py:43-45 | splitting a table line at '\|' gives an empty piece, the padded cells and an empty piece |
| `Markdown.RowCellsRoundTrip` | document/markdown.py:43-45 | reading a generated table line back gives exactly its cells |
| `Markdown.RowOneLine` | document/markdown.py:43-45 | a table line holds no newline when its cells hold none |
| `Markdown.NumberedCell` | document/markdown.py:43-45 | "Header"/"Cell" followed by digits is a plain cell |
| `Markdown.HeaderCellsPlain` | document/markdown.py:43 | every header cell is plain |
| `Markdown.BodyCellsPlain` | document/markdown.py:45 | every body cell is plain |
| `Markdown.GenerateTable` | document/markdown.py:41-46 | with at least one row the table splits into the header line, the delimiter line and one line per row: rows + 2 lines |
| `Markdown.TableWithoutRows` | document/markdown.py:45-46 | with no rows the table is header and delimiter followed by an empty line |
| `Markdown.TableHeader` | document/markdown.py:43 | the first line reads back as Header1..HeaderN |
| `Markdown.TableDelimiter` | document/markdown.py:44 | the second line reads back as one "---" per column |
| `Markdown.TableBody` | document/markdown.py:45 | line i + 2 reads back as the cells of row i |
| `Markdown.CellNamesCanCollide` | document/markdown.py:45 | Cell{i+1}{j+1} is ambiguous: row 1 column 11 and row 11 column 1 are both "Cell111" |
| `Markdown.ParseDimensions` | document/markdown.py:31 | accepted input has exactly one 'x' |
| `Markdown.ParseDimensionsRoundTrip` | document/markdown.py:29-31 | "<rows>x<cols>" is read back as those two numbers |
| `Markdown.NoX` | document/markdown.py:31 | a number's decimal form holds no 'x' |
| `Markdown.ParseDimensionsNeedsOneX` | document/markdown.py:31-38 | input without an 'x' is refused |
| `Markdown.CreateTable` | document/markdown.py:27-38 | a table exactly for well-formed dimensions, and then the generated table of that size |
| `Markdown.CreateMermaid` | document/markdown.py:58-128 | a diagram exactly for the choices "1" to "4" |
| `MermaidCli.Chosen` | plot/mermaid.py:50-54 | an empty answer picks the default's value, otherwise the stripped answer's value; always one of the options |
| `MermaidCli.FirstValid` | plot/mermaid.py:49-55 | the first answer at or after i that is empty or a key |
| `MermaidCli.FirstValidSkips` | plot/mermaid.py:53-55 | every answer before the first valid one is refused |
| `MermaidCli.GetUserChoice` | plot/mermaid.py:47-55 | asks until an answer is valid, consumes exactly the answers up to it and returns its value; without one all answers are consumed |
| `MermaidCli.MmdcCommand` | plot/mermaid.py:58-66 | the command starts with mmdc -i input -o output, then -t and -b exactly when theme and background are non-empty |
| `MermaidCli.CommandOptions` | plot/mermaid.py:60-66 | each option of the command reads back as the value it was given |
| `MermaidCli.OutputFile` | plot/mermaid.py:96-106 | the stripped typed name, or else the input's stem, followed by "." and the format |
| `MermaidCli.OutputFileStemSuffix` | plot/mermaid.py:106 | the output file's stem is the typed name and its suffix is "." + the format |
| `MermaidCli.InteractiveMode` | plot/mermaid.py:85-117 | nothing runs for a missing input; otherwise the command converts the input to an output named by OutputFile with a theme and a background from the tables |
| `MermaidCli.NonEmptyValues` | plot/mermaid.py:16-37 | no theme, background or format value is empty, so the chosen ones always reach the command |
| `MermaidCli.RunScript` | plot/mermaid.py:120-175 | a usage error exactly for a `-t` outside the four choices; otherwise help without an input, direct mode exactly when output, theme and background are all given, carrying exactly those values; interactive in every other case; the input is the positional one, else `-i` |
| `MermaidCli.PositionalInputFirst` | plot/mermaid.py:162 | a positional input wins over -i |
| `KindleCropper.PathsOf` | image/kindle-pdf-cropper.py:65-68 | the image directory is the PDF's directory joined with its base name |
| `KindleCropper.PathsOfPdf` | image/kindle-pdf-cropper.py:66-68 | for "<dir>/<stem>.pdf" the paths are dir, stem and "<dir>/<stem>", and splitting the image directory gives back dir and stem |
| `KindleCropper.IntegersMeaning` | image/kindle-pdf-cropper.py:30 | every piece parses and the values are in order, or some piece is not an integer |
| `KindleCropper.ParseOffsets` | image/kindle-pdf-cropper.py:29-33 | offsets are accepted only when the line has at least four comma-separated pieces |
| `KindleCropper.IntToStringNoComma` | image/kindle-pdf-cropper.py:30 | a number's decimal form holds no comma |
| `KindleCropper.OffsetsRoundTrip` | image/kindle-pdf-cropper.py:28-33 | "top,right,bottom,left" followed by any further numbers reads back as those four offsets |
| `KindleCropper.Rendered` | image/kindle-pdf-cropper.py:30 | one decimal string per number |
| `KindleCropper.RenderedParses` | image/kindle-pdf-cropper.py:30 | rendered numbers parse back to the same numbers |
| `KindleCropper.OffsetLineEdges` | image/kindle-pdf-cropper.py:30-33 | an empty line is not an integer; "1,2,3" is too few offsets |
| `KindleCropper.CropBox` | image/kindle-pdf-cropper.py:43 | left + width + right is the page width, top + height + bottom the page height, and the box starts at (left, top) |
| `KindleCropper.IntToStringHas` | image/kindle-pdf-cropper.py:43 | a number's decimal form holds no 'x', '+' or space |
| `KindleCropper.CropArgReadsBack` | image/kindle-pdf-cropper.py:43 | the geometry "WxH+X+Y" splits back into the four numbers it was made of |
| `KindleCropper.Zeros` | image/kindle-pdf-cropper.py:37 | k characters, all '0' |
| `KindleCropper.Pad6` | image/kindle-pdf-cropper.py:37 | the page number is at least six characters wide and holds no space |
| `KindleCropper.LeadingZeros` | image/kindle-pdf-cropper.py:37 | leading zeros keep a digit string's value |
| `KindleCropper.ZerosValue` | image/kindle-pdf-cropper.py:37 | a run of zeros has value 0 |
| `KindleCropper.PaddedDigits` | image/kindle-pdf-cropper.py:37 | zeros followed by a number's digits are digits with the number's value |
| `KindleCropper.ParseSigned` | image/kindle-pdf-cropper.py:36 | an optional '-' and the digits of \|n\| parse as n |
| `KindleCropper.Pad6RoundTrip` | image/kindle-pdf-cropper.py:35-37 | the padded page number parses back to the number typed |
| `KindleCropper.Pad6Width` | image/kindle-pdf-cropper.py:35-37 | numbers below 1000000 are padded to exactly six characters, as "000012" |
| `KindleCropper.NatDigitsBelow` | image/kindle-pdf-cropper.py:37 | a number below 10^k has at most k digits |
| `KindleCropper.ReferenceIsPageZero` | image/kindle-pdf-cropper.py:39 | the measured image is the page file numbered 0 in the same naming scheme as every other page |
| `KindleCropper.CropArg` | image/kindle-pdf-cropper.py:43 | the geometry "WxH+X+Y" holds no space, so it stays one word of the shell command |
| `KindleCropper.ResizeCommand` | image/kindle-pdf-cropper.py:58 | the shell splits each resize command into convert -crop geometry file file: the page is overwritten with its cropped self |
| `KindleCropper.TestImageWidth` | image/kindle-pdf-cropper.py:27-43 | "Incorrect input" exactly for fewer than four offsets; otherwise one crop of the chosen page by the box measured on page 0, or an error |
| `KindleCropper.ResizeAllImagesWidth` | image/kindle-pdf-cropper.py:45-58 | "Incorrect input" exactly for fewer than four offsets; with offsets and page 0 one in-place crop per listed file, in order, all with the same box |
| `KindleCropper.TestCommand` | image/kindle-pdf-cropper.py:35-43 | the shell splits the test command into convert -crop geometry, page n of the split's naming, and "<srcPath>/test.jpg" |
| `KindleCropper.SplitCommand` | image/kindle-pdf-cropper.py:22 | the shell splits the split command into convert -quality 100 -density d, the PDF, and the "<imagePath>/<base>-%06d.jpg" page template |
| `KindleCropper.MergeCommand` | image/kindle-pdf-cropper.py:25 | the shell splits the merge command into convert, the page pattern "<imagePath>/<base>*" and "<srcPath>/<base>-kindle.pdf" |
| `KindleCropper.CommandLine` | image/kindle-pdf-cropper.py:22-58 | a command string is its words joined by single spaces, and the shell splits it back into those words when none holds a space |
| `KindleCropper.MergeTakesEveryPage` | image/kindle-pdf-cropper.py:25 | the merge pattern "<imagePath>/<base>*" matches every page file the split writes |
| `KindleCropper.Selection` | image/kindle-pdf-cropper.py:76-87 | 1 to 4 pick the four steps, any other integer is an unknown selection, and a non-integer is an error |
| `KindleCropper.SelectionIgnoresSpace` | image/kindle-pdf-cropper.py:76 | surrounding whitespace is ignored when reading the selection |
| `CcSwitch.IndexOf` | ai/ccswitch.py:56 | none exactly when the key is absent, otherwise the position of its last occurrence |
| `CcSwitch.Lookup` | ai/ccswitch.py:56 | none exactly when the key is absent, otherwise a value stored under it |
| `CcSwitch.IndexOfIs` | ai/ccswitch.py:56 | the last position holding the key is the one found |
| `CcSwitch.IndexOfSameKeys` | ai/ccswitch.py:69-70 | dictionaries with the same keys in the same order find a key at the same position |
| `CcSwitch.Assign` | ai/ccswitch.py:70 | assigning an existing key keeps the keys and their order; a new key is appended |
| `CcSwitch.AssignLookup` | ai/ccswitch.py:70 | after the assignment the key maps to the new value and every other key to its old value |
| `CcSwitch.WithTokenLookup` | ai/ccswitch.py:69-70 | the copied template has the API key as its token and is otherwise the template |
| `CcSwitch.GetApiKey` | ai/ccswitch.py:32-41 | a non-empty environment variable wins; otherwise the typed key |
| `CcSwitch.Merged` | ai/ccswitch.py:53-56 | the merged env has the old keys plus the template's keys |
| `CcSwitch.MergeInto` | ai/ccswitch.py:55-56 | the loop writing each template pair into "env" in order computes exactly the merged map |
| `CcSwitch.MergedLookup` | ai/ccswitch.py:55-56 | template keys take the template's value; every other key keeps its old value |
| `CcSwitch.MissingEnvIsCreated` | ai/ccswitch.py:53 | a settings file without "env" gets exactly the template's keys |
| `CcSwitch.UpdatedTouchesOnlyEnv` | ai/ccswitch.py:50-58 | the settings keep every top-level key but "env", gain "env" if missing, and "env" is the merge |
| `CcSwitch.SettingsFile.constructor` | ai/ccswitch.py:6 | a settings file with the given presence and content |
| `CcSwitch.SettingsFile.UpdateSettingsEnv` | ai/ccswitch.py:43-59 | a missing file is reported and unchanged; an "env" that is not an object crashes with nothing written; otherwise the file holds the merged settings |
| `CcSwitch.Chosen` | ai/ccswitch.py:61-79 | the stripped choice "1" gives the GLM template with its key, "2" the MiniMax one, anything else nothing |
| `CcSwitch.RunScript` | ai/ccswitch.py:61-79 | an invalid choice leaves the file untouched; a valid one updates it with the chosen template |
| `CcSwitch.GlmWritesTemplate` | ai/ccswitch.py:66-71 | after choosing GLM the env holds the key and the GLM endpoint, and keys outside the template are kept |

## Left out

- Running processes, printing, the clipboard, reading and writing files, and moving or deleting directories are effects. Each becomes an input of the model (what a command printed, the lines typed, a listing) or a returned value (the command, the payload, the planned move).
- Running out of console input: most scripts' `input()` raises `EOFError`, and the model reports that no acceptable answer was given (`None`, `OutOfInput`, `EndOfInput`).
- NpmTools.MainLoop: `choices` holds only the answers to the main-menu prompt. The actions read further lines from the same console: `select_from_list` (ai/npm-tools.py:106, called from options 2, 4 and 6) and the y/N confirmation of option 5 (line 180). The model does not interleave those lines with the menu answers, and it does not model the `EOFError` that `select_from_list` raises out of `main_loop`, which catches end of input only around its own prompt (lines 297-300). Typed lines such as "2", "1", "0" are read by the script as a menu answer, a tool pick and a menu answer; the model reads all three as menu answers.
- AndroidRecord.RunScript: the model always yields the pull command. At the end of input, `input("Press Enter to stop recording.")` (android/android-record.py:56) raises `EOFError` before the recording is stopped and pulled.
- ListIncludeDirs: the walk is over a finite `FileTree.Node` tree. `os.path.isdir` follows symbolic links, so cpp/list_include_dirs.py:9-13 descends into linked directories, and a link cycle recurses until `RecursionError`; neither is modelled.
- CopyDiff.RunScript: the two re-prompt loops of git/copy_diff.py (lines 18-26 and 51-60) catch every `Exception`, `EOFError` included, so at the end of input the script prints "Please enter a number." forever. The model ends such a run with `OutOfInput` instead. The hash line of option 4 (line 92) is read outside a `try`, so there `EOFError` does end the script.
- `sys.exit` and the exit statuses: an exit is a result value of the model (`Exit`, `Incorrect`, `Fails`, `Crash`, `UsageError`).
- `str.lower` and `str.isdigit` are modelled for ASCII only. `int()` accepts surrounding whitespace, a sign and ASCII digits; underscores and non-ASCII digits are not modelled.
- JSON parsing and serialisation (`json.load`, `json.dumps`): documents are given already parsed, and the JSON decoder of `codec/decode_and_format_json.py` is a parameter. The ordering of keys that `json.dump` writes is not modelled; the settings file is a map.
- CcSwitch.SettingsFile.UpdateSettingsEnv: a settings file that is not valid JSON makes `json.load` raise. The model starts from parsed content, so it does not capture this crash. The path `~/.claude/settings.json` is represented by the file object itself.
- Regular expressions: `re.fullmatch` in android/batch_install.py is a predicate parameter (`fullMatch`), and an invalid pattern's `re.error` is not modelled. The `\((.*?)\)` search in ios/simulator.py is written out as "the first parenthesised group".
- Simulator.SortDevices: before any runtime header a device's runtime is `None`, and Python raises `TypeError` when it compares `None` with a string. The model orders `None` first instead. Stability of `sorted` among devices with equal keys is not stated; the result is proved an ordered permutation.
- MermaidCli.OutputFile: the stem comes from `Paths.Name`, which does not drop "." components as pathlib does; an input such as "dir/." gives the stem "." here and "dir" in the script.
- MermaidCli.RunScript: the model stops at the `mmdc` command and does not model the exit status. Whether `mmdc` succeeds decides `sys.exit(0 if success else 1)` at plot/mermaid.py:170-175.
- The APK installs of android/batch_install.py and the pull of android/android-record.py: their return codes are only printed, and the model stops at the command.
- android/android_record.py imports a `select_device` that android/android_utils.py does not define, so the script cannot start; it is not modelled.
- KindleCropper: `Image.open` of page 0 becomes an optional size, `os.listdir` of the image directory a sequence of names, and `os.path.realpath` is not modelled (the PDF path is taken as already absolute). The density typed for `splitPdf2Jpg` is passed through as text.
- Markdown: the menu loop of `main` is console I/O only and is not modelled; each of its actions is. `create_task_list` copies a fixed text and has nothing to prove.
- Base64: `b64decode` skips characters outside the alphabet; the decoder implements that non-validating behaviour, but the round-trip lemmas are stated for alphabet input.
- RenameProject.DirsMatchedAreChecked: the walk is over a static tree. In android/rename_project.py:42-48 and 63-73 a directory is moved from inside the predicate while `os.listdir` is still walking. Matches nested under a moved directory, or listed beneath it earlier, are then not visited. For example, with package "a", directories root/x/a and root/x/a/y/a, the script moves only root/x/a, while the model lists both.
- ExtractGames.ExtractNextZip: an archive is all or nothing (`entries` is `None` for an unreadable one). In game/extract_games.py:93-122 an exception partway through an archive keeps the files already written from it, yet counts none of them in the archive's total or in the archive count.
- Paths are POSIX paths with '/' as separator; Windows paths are not modelled.

## Findings

| source | as written | input that shows it | evidently intended | confidence | as-written member | corrected member |
|---|---|---|---|---|---|---|
| android/rename_project.py:87 | `dir.endswith(old_package_path)` without a separator before the suffix | directory "xa/b" with package "a.b": it is accepted, "/a/b" does not occur in it, so the base is "xa/b" and the directory is moved into "xa/b/c", inside itself | act only on directories ending in "/" + the package path | not executed | `RenameProject.OnWalkProjectDir`, `RenameProject.OnWalkProjectDirSuffixMatch` | `RenameProject.OnWalkProjectDirChecked`, `RenameProject.DirsMatchedAreChecked` |
| git/delete_branch.py:134 | pushes `branch.split('/')[-1]` | remote branch "origin/feature/login": the push deletes "login", not "feature/login" | delete everything after the remote's name | not executed | `DeleteBranch.PushedNameAsWritten`, `DeleteBranch.PushedNameDropsFolders` | `DeleteBranch.PushedName`, `DeleteBranch.PushedNameRoundTrip`, `DeleteBranch.RemoteDeleteTargetsWholeName` |
| android/android_utils.py:22-23 | `devices[int(choice) - 1]` without a range check | answer "0" with two devices: index -1 selects the last device | only numbers 1..len select | not executed | `AndroidUtils.SelectAdbDeviceAsWritten`, `AndroidUtils.ZeroSelectsLast` | `AndroidUtils.SelectAdbDevice`, `AndroidUtils.CorrectionAgrees` |
