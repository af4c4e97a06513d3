/** `game/extract_games.py`: unpack every zip archive of the working
    directory, keep the game images among its entries, name each one after
    the archive (with bracketed tags cut off) and file it into a folder per
    console. Archives and their entry names are parameters; the files that
    already exist are a set of relative paths. */
module ExtractGames {
  import opened Strings
  import Paths

  // ---------------------------------------------------------------------
  // clean_filename
  // ---------------------------------------------------------------------

  /** An ASCII or a full-width opening parenthesis. */
  predicate IsParen(c: char) { c == '(' || c == '（' }

  /** `s.find(c)`: the first index of `c`, or -1. */
  function Find(s: string, c: char): (r: int)
    ensures -1 <= r < |s|
    ensures r == -1 <==> c !in s
    ensures r >= 0 ==> s[r] == c && c !in s[..r]
  {
    var b := Before(s, c);
    if |b| < |s| then
      assert s[..|b|] == b;
      |b|
    else
      assert b == s;
      -1
  }

  /** `clean_filename`: cut at the earlier of the two parentheses, then drop
      trailing whitespace. */
  function CleanFilename(filename: string): (r: string)
    ensures '(' !in r && '（' !in r
    ensures r == [] || !IsSpace(r[|r| - 1])
    ensures r <= filename
  {
    var en := Find(filename, '(');
    var cn := Find(filename, '（');
    var pos :=
      if en != -1 && cn != -1 then (if en < cn then en else cn)
      else if en != -1 then en
      else if cn != -1 then cn
      else -1;
    var cut := if pos != -1 then filename[..pos] else filename;
    assert '(' !in cut && '（' !in cut by {
      if pos != -1 {
        CutLacks(filename, '(', en, pos);
        CutLacks(filename, '（', cn, pos);
      }
    }
    RStrip(cut)
  }

  /** A prefix no longer than the first `c` (or any prefix, when `s` has
      no `c`) holds no `c`. */
  lemma CutLacks(s: string, c: char, f: int, m: nat)
    requires m <= |s|
    requires (f == -1 && c !in s) || (m <= f < |s| && c !in s[..f])
    ensures c !in s[..m]
  {
    if f != -1 {
      assert s[..m] == s[..f][..m];
    } else {
      forall j | 0 <= j < m ensures s[..m][j] != c {
        assert s[..m][j] == s[j];
      }
    }
  }

  /** The cut is at the first parenthesis of either kind: the result is the
      text before it, right-stripped. */
  lemma CleanFilenameCutsAtFirst(filename: string)
    ensures CleanFilename(filename) == RStrip(filename[..IndexFrom(filename, IsParen, 0)])
  {
    var k := IndexFrom(filename, IsParen, 0);
    var en := Find(filename, '(');
    var cn := Find(filename, '（');
    if k < |filename| {
      if filename[k] == '(' {
        assert en == k by {
          assert forall j :: 0 <= j < k ==> filename[..k][j] != '(';
        }
        assert cn == -1 || cn > k by {
          if cn != -1 { assert IsParen(filename[cn]); }
        }
      } else {
        assert cn == k by {
          assert forall j :: 0 <= j < k ==> filename[..k][j] != '（';
        }
        assert en == -1 || en > k by {
          if en != -1 { assert IsParen(filename[en]); }
        }
      }
    } else {
      assert forall j :: 0 <= j < |filename| ==> !IsParen(filename[j]);
      assert filename[..k] == filename;
    }
  }

  /** Without a parenthesis the name is only right-stripped; leading
      whitespace stays. */
  lemma CleanFilenameNoParen(filename: string)
    requires '(' !in filename && '（' !in filename
    ensures CleanFilename(filename) == RStrip(filename)
  {
  }

  /** Cleaning a cleaned name changes nothing. */
  lemma CleanFilenameIdempotent(filename: string)
    ensures CleanFilename(CleanFilename(filename)) == CleanFilename(filename)
  {
    var r := CleanFilename(filename);
    CleanFilenameNoParen(r);
    TrimEndSuffix(r, "", IsSpace);
    assert r + "" == r;
  }

  /** The examples of the function's own documentation: an ASCII
      parenthesis, a full-width one, and a space before several tags. */
  lemma CleanFilenameAsciiExample()
    ensures CleanFilename("abc(dsfsdf)") == "abc"
  {
    CleanAt("abc(dsfsdf)", "abc", 3);
    AbcStripped();
  }

  lemma CleanFilenameFullWidthExample()
    ensures CleanFilename("abc（测试）") == "abc"
  {
    CleanAt("abc（测试）", "abc", 3);
    AbcStripped();
  }

  lemma CleanFilenameTagsExample()
    ensures CleanFilename("abc (简) (v0.99)") == "abc"
  {
    var f := "abc (简) (v0.99)";
    TagsHead();
    CleanAt(f, "abc ", 4);
    AbcSpaceStripped();
  }

  lemma TagsHead()
    ensures var f := "abc (简) (v0.99)";
      4 < |f| && IsParen(f[4]) && f[..4] == "abc " && forall j :: 0 <= j < 4 ==> !IsParen(f[j])
  {
    var f := "abc (简) (v0.99)";
    assert f[..4] == "abc ";
  }

  lemma AbcSpaceStripped()
    ensures RStrip("abc ") == "abc"
  {
    TrimEndSuffix("abc", " ", IsSpace);
    assert "abc" + " " == "abc ";
  }

  lemma AbcStripped()
    ensures RStrip("abc") == "abc"
  {
    TrimEndSuffix("abc", "", IsSpace);
    assert "abc" + "" == "abc";
  }

  lemma CleanAt(filename: string, head: string, k: nat)
    requires k < |filename| && IsParen(filename[k]) && filename[..k] == head
    requires forall j :: 0 <= j < k ==> !IsParen(filename[j])
    ensures CleanFilename(filename) == RStrip(head)
  {
    CleanFilenameCutsAtFirst(filename);
    IndexFromFirst(filename, k);
  }

  lemma IndexFromFirst(s: string, k: nat)
    requires k < |s| && IsParen(s[k])
    requires forall j :: 0 <= j < k ==> !IsParen(s[j])
    ensures IndexFrom(s, IsParen, 0) == k
  {
    var i := IndexFrom(s, IsParen, 0);
    assert i <= k;
    assert IsParen(s[i]);
  }

  // ---------------------------------------------------------------------
  // get_target_directory
  // ---------------------------------------------------------------------

  const TargetExtensions: seq<string> := [".nes", ".sfc", ".smc", ".n64", ".gba"]

  const DirectoryMapping: map<string, string> :=
    map[".nes" := "nes", ".sfc" := "snes", ".smc" := "snes", ".n64" := "n64", ".gba" := "gba"]

  /** The extension list and the mapping's keys name the same extensions. */
  lemma TargetsAreMapped()
    ensures forall ext :: ext in TargetExtensions <==> ext in DirectoryMapping
  {
  }

  /** `DIRECTORY_MAPPING.get(ext)`. */
  function DirectoryFor(ext: string): (r: Option<string>)
    ensures r.Some? <==> ext in TargetExtensions
    ensures r.Some? ==> r.value in {"nes", "snes", "n64", "gba"}
  {
    if ext in DirectoryMapping then Some(DirectoryMapping[ext]) else None
  }

  /** The lowercased extension `os.path.splitext` finds. */
  function LowerExt(filename: string): string
  {
    Lower(Paths.SplitExt(filename).1)
  }

  /** `get_target_directory`. */
  function GetTargetDirectory(filename: string): (r: Option<string>)
    ensures r.Some? <==> LowerExt(filename) in TargetExtensions
  {
    DirectoryFor(LowerExt(filename))
  }

  /** The extension is matched without regard to case. */
  lemma TargetDirectoryIgnoresCase()
    ensures GetTargetDirectory("Mario.NES") == Some("nes")
  {
    assert "Mario"[0] != '.';
    Paths.SplitExtOfName("Mario", "NES");
    assert "Mario" + "." + "NES" == "Mario.NES";
    assert Lower(".NES") == ".nes";
  }

  /** Other extensions have no folder. */
  lemma TargetDirectoryOther()
    ensures GetTargetDirectory("readme.txt").None?
  {
    assert "readme"[0] != '.';
    Paths.SplitExtOfName("readme", "txt");
    assert "readme" + "." + "txt" == "readme.txt";
    assert Lower(".txt") == ".txt";
  }

  /** A target extension is already lower case. */
  lemma TargetExtensionLower(ext: string)
    requires ext in TargetExtensions
    ensures Lower(ext) == ext && |ext| == 4 && ext[0] == '.'
    ensures '/' !in ext[1..] && '.' !in ext[1..]
  {
  }

  // ---------------------------------------------------------------------
  // extract_all_zips
  // ---------------------------------------------------------------------

  /** A zip file of the directory: its name and the names of its entries, or
      `None` when it cannot be opened or read. */
  datatype Zip = Zip(name: string, entries: Option<seq<string>>)

  /** The name every game image of an archive gets: the archive's base name
      without its extension, cleaned. */
  function CleanedZipName(zipName: string): string
  {
    CleanFilename(Paths.SplitExt(zipName).0)
  }

  /** Where an entry is extracted to, relative to the working directory, or
      `None` when it is not a game image. */
  function TargetPath(cleaned: string, entry: string): (r: Option<string>)
    ensures r.Some? <==> GetTargetDirectory(entry).Some?
    ensures r.Some? ==> r.value == GetTargetDirectory(entry).value + "/" + cleaned + LowerExt(entry)
  {
    var ext := LowerExt(entry);
    if ext in TargetExtensions then Some(DirectoryMapping[ext] + "/" + cleaned + ext) else None
  }

  /** The file an entry becomes sorts back into the same folder: its own
      extension is the entry's, lowercased. */
  lemma TargetNameKeepsFolder(cleaned: string, entry: string)
    requires '/' !in cleaned && exists i :: 0 <= i < |cleaned| && cleaned[i] != '.'
    requires GetTargetDirectory(entry).Some?
    ensures GetTargetDirectory(cleaned + LowerExt(entry)) == GetTargetDirectory(entry)
  {
    var ext := LowerExt(entry);
    TargetExtensionLower(ext);
    assert ext == "." + ext[1..];
    Paths.SplitExtOfName(cleaned, ext[1..]);
  }

  /** Every path the entries of one archive are extracted to. */
  function Targets(cleaned: string, entries: seq<string>): set<string>
  {
    if entries == [] then {}
    else
      var t := TargetPath(cleaned, entries[|entries| - 1]);
      Targets(cleaned, entries[..|entries| - 1]) + (if t.Some? then {t.value} else {})
  }

  /** A path is a target of the archive exactly when some game image entry
      is extracted to it. */
  lemma {:induction false} TargetsMembers(cleaned: string, entries: seq<string>, path: string)
    ensures path in Targets(cleaned, entries) <==> exists e :: e in entries && TargetPath(cleaned, e) == Some(path)
    decreases |entries|
  {
    if entries != [] {
      var init, last := entries[..|entries| - 1], entries[|entries| - 1];
      TargetsMembers(cleaned, init, path);
      assert entries == init + [last];
      if path in Targets(cleaned, init) {
        var e :| e in init && TargetPath(cleaned, e) == Some(path);
        assert e in entries;
      }
    }
  }

  lemma TargetsSnoc(cleaned: string, entries: seq<string>, e: string)
    ensures Targets(cleaned, entries + [e])
         == Targets(cleaned, entries) + (if TargetPath(cleaned, e).Some? then {TargetPath(cleaned, e).value} else {})
  {
    assert (entries + [e])[..|entries|] == entries;
  }

  /** The inner loop over one archive's entries. `written` is every path that
      exists afterwards; an existing path is skipped, never overwritten, so
      the count is the number of new files. */
  method ExtractZip(cleaned: string, entries: seq<string>, existing: set<string>)
    returns (extracted: nat, written: set<string>)
    ensures written == existing + Targets(cleaned, entries)
    ensures extracted == |written - existing|
  {
    extracted, written := 0, existing;
    var i := 0;
    assert entries[..0] == [];
    while i < |entries|
      invariant i <= |entries|
      invariant written == existing + Targets(cleaned, entries[..i])
      invariant extracted == |written - existing|
    {
      EntryStep(cleaned, entries, i, existing, written, extracted);
      var target := TargetPath(cleaned, entries[i]);
      if target.Some? {
        if target.value !in written {
          extracted := extracted + 1;
        }
        written := written + {target.value};
      }
      i := i + 1;
    }
    TakeAll(entries);
  }

  /** One entry of the inner loop keeps both loop invariants. */
  lemma EntryStep(cleaned: string, entries: seq<string>, i: nat, existing: set<string>, written: set<string>, extracted: nat)
    requires i < |entries| && written == existing + Targets(cleaned, entries[..i])
    requires extracted == |written - existing|
    ensures var t := TargetPath(cleaned, entries[i]);
            var after := if t.Some? then written + {t.value} else written;
            && after == existing + Targets(cleaned, entries[..i + 1])
            && (if t.Some? && t.value !in written then extracted + 1 else extracted) == |after - existing|
  {
    ExtractStep(cleaned, entries, i, existing, written);
    var t := TargetPath(cleaned, entries[i]);
    if t.Some? {
      NewFileCounts(existing, written, t.value);
    }
  }

  /** One entry of the inner loop: the entry's target, if any, joins the
      paths written. */
  lemma ExtractStep(cleaned: string, entries: seq<string>, i: nat, existing: set<string>, written: set<string>)
    requires i < |entries| && written == existing + Targets(cleaned, entries[..i])
    ensures var t := TargetPath(cleaned, entries[i]);
            (if t.Some? then written + {t.value} else written) == existing + Targets(cleaned, entries[..i + 1])
  {
    var entry := entries[i];
    TakeOneMore(entries, i);
    TargetsSnoc(cleaned, entries[..i], entry);
  }

  /** A path not yet written adds one new file; one already there adds
      none. */
  lemma NewFileCounts(existing: set<string>, written: set<string>, path: string)
    requires existing <= written
    ensures |(written + {path}) - existing| == |written - existing| + (if path in written then 0 else 1)
  {
    if path in written {
      assert written + {path} == written;
    } else {
      assert (written + {path}) - existing == (written - existing) + {path};
    }
  }

  /** Every path the readable archives among `zips` are extracted to. */
  function AllTargets(zips: seq<Zip>): set<string>
  {
    if zips == [] then {}
    else
      var z := zips[|zips| - 1];
      AllTargets(zips[..|zips| - 1])
        + (if z.entries.Some? then Targets(CleanedZipName(z.name), z.entries.value) else {})
  }

  /** The archive is readable and extracts some path not yet written. */
  predicate AddsFiles(zip: Zip, written: set<string>)
  {
    zip.entries.Some? && !(Targets(CleanedZipName(zip.name), zip.entries.value) <= written)
  }

  /** The number of archives counted as processed: those that wrote at
      least one file not already on disk or written by an earlier archive. */
  function ZipsCounted(zips: seq<Zip>, existing: set<string>): (n: nat)
    ensures n <= |zips|
  {
    if zips == [] then 0
    else
      var init := zips[..|zips| - 1];
      ZipsCounted(init, existing) + (if AddsFiles(zips[|zips| - 1], existing + AllTargets(init)) then 1 else 0)
  }

  /** The state of the outer loop after the first `i` archives: the files
      written are the existing ones and the targets of those archives, the
      total counts the new files, and an archive is counted only when it
      added some. */
  predicate Progress(zips: seq<Zip>, i: nat, existing: set<string>, written: set<string>, count: nat, total: nat)
    requires i <= |zips|
  {
    && written == existing + AllTargets(zips[..i])
    && total == |written - existing|
    && count == ZipsCounted(zips[..i], existing)
    && count <= i && count <= total
    && (count == 0 <==> total == 0)
  }

  /** One archive of the outer loop keeps `Progress`. */
  lemma ProgressStep(zips: seq<Zip>, i: nat, existing: set<string>, written: set<string>, count: nat, total: nat,
                     fromZip: nat, after: set<string>)
    requires i < |zips| && Progress(zips, i, existing, written, count, total)
    requires zips[i].entries.Some? ==>
               after == written + Targets(CleanedZipName(zips[i].name), zips[i].entries.value) && fromZip == |after - written|
    requires zips[i].entries.None? ==> after == written && fromZip == 0
    ensures Progress(zips, i + 1, existing, after,
                     if fromZip > 0 then count + 1 else count, if fromZip > 0 then total + fromZip else total)
  {
    ZipStep(zips, i, existing, written, after);
    CountStep(existing, written, after, i, count, total, fromZip);
    CountedStep(zips, i, existing, written, after, fromZip);
  }

  /** Archive `i` is counted exactly when it wrote a new file. */
  lemma CountedStep(zips: seq<Zip>, i: nat, existing: set<string>, written: set<string>, after: set<string>, fromZip: nat)
    requires i < |zips| && written == existing + AllTargets(zips[..i])
    requires zips[i].entries.Some? ==>
               after == written + Targets(CleanedZipName(zips[i].name), zips[i].entries.value) && fromZip == |after - written|
    requires zips[i].entries.None? ==> after == written && fromZip == 0
    ensures ZipsCounted(zips[..i + 1], existing) == ZipsCounted(zips[..i], existing) + (if fromZip > 0 then 1 else 0)
  {
    TakeOneMore(zips, i);
    assert zips[..i + 1][..i] == zips[..i];
    if zips[i].entries.Some? {
      var t := Targets(CleanedZipName(zips[i].name), zips[i].entries.value);
      NewPathsIff(written, t);
    }
  }

  /** Adding `t` to `written` grows it exactly when `t` is not inside it. */
  lemma NewPathsIff(written: set<string>, t: set<string>)
    ensures |(written + t) - written| > 0 <==> !(t <= written)
  {
    if !(t <= written) {
      var p :| p in t && p !in written;
      assert p in (written + t) - written;
    } else {
      assert (written + t) - written == {};
    }
  }

  /** The counters after one archive: the total grows by the archive's new
      files, and the archive is counted when there are some. */
  lemma CountStep(existing: set<string>, written: set<string>, after: set<string>,
                  i: nat, count: nat, total: nat, fromZip: nat)
    requires existing <= written <= after && fromZip == |after - written|
    requires total == |written - existing| && count <= i && count <= total && (count == 0 <==> total == 0)
    ensures var count' := if fromZip > 0 then count + 1 else count;
            var total' := if fromZip > 0 then total + fromZip else total;
            total' == |after - existing| && count' <= i + 1 && count' <= total' && (count' == 0 <==> total' == 0)
  {
    NewFilesAdd(existing, written, after);
  }

  /** One archive's targets join the paths written. */
  lemma ZipStep(zips: seq<Zip>, i: nat, existing: set<string>, written: set<string>, after: set<string>)
    requires i < |zips| && written == existing + AllTargets(zips[..i])
    requires zips[i].entries.Some? ==> after == written + Targets(CleanedZipName(zips[i].name), zips[i].entries.value)
    requires zips[i].entries.None? ==> after == written
    ensures after == existing + AllTargets(zips[..i + 1])
  {
    TakeOneMore(zips, i);
  }

  /** Files written by one archive add to the files written before it. */
  lemma NewFilesAdd(existing: set<string>, written: set<string>, after: set<string>)
    requires existing <= written <= after
    ensures |after - existing| == |written - existing| + |after - written|
  {
    assert after - existing == (written - existing) + (after - written);
    assert (written - existing) * (after - written) == {};
  }

  /** `extract_all_zips`: the archives in turn. An archive counts as
      processed only when it yielded at least one file; the total is the
      number of files written, which are exactly the new target paths. */
  method ExtractAllZips(zips: seq<Zip>, existing: set<string>)
    returns (extractedCount: nat, totalExtracted: nat, written: set<string>)
    ensures written == existing + AllTargets(zips)
    ensures totalExtracted == |written - existing|
    ensures extractedCount == ZipsCounted(zips, existing)
    ensures extractedCount <= |zips| && extractedCount <= totalExtracted
    ensures extractedCount == 0 <==> totalExtracted == 0
  {
    extractedCount, totalExtracted, written := 0, 0, existing;
    var i := 0;
    ProgressStart(zips, existing);
    while i < |zips|
      invariant i <= |zips|
      invariant Progress(zips, i, existing, written, extractedCount, totalExtracted)
    {
      written, extractedCount, totalExtracted := ExtractNextZip(zips, i, existing, written, extractedCount, totalExtracted);
      i := i + 1;
    }
    ProgressDone(zips, existing, written, extractedCount, totalExtracted);
  }

  /** The body of the outer loop for archive `i`: an unreadable archive
      changes nothing; a readable one is extracted, and counted when it
      added files. */
  method ExtractNextZip(zips: seq<Zip>, i: nat, existing: set<string>, written: set<string>, count: nat, total: nat)
    returns (written': set<string>, count': nat, total': nat)
    requires i < |zips| && Progress(zips, i, existing, written, count, total)
    ensures Progress(zips, i + 1, existing, written', count', total')
  {
    var zip := zips[i];
    var fromZip := 0;
    written' := written;
    if zip.entries.Some? {
      fromZip, written' := ExtractZip(CleanedZipName(zip.name), zip.entries.value, written);
    }
    ProgressStep(zips, i, existing, written, count, total, fromZip, written');
    if fromZip > 0 {
      count', total' := count + 1, total + fromZip;
    } else {
      count', total' := count, total;
    }
  }

  /** Before the first archive nothing is written or counted. */
  lemma ProgressStart(zips: seq<Zip>, existing: set<string>)
    ensures Progress(zips, 0, existing, existing, 0, 0)
  {
    assert zips[..0] == [];
    assert existing - existing == {};
  }

  /** After the last archive, `Progress` is the postcondition. */
  lemma ProgressDone(zips: seq<Zip>, existing: set<string>, written: set<string>, count: nat, total: nat)
    requires Progress(zips, |zips|, existing, written, count, total)
    ensures written == existing + AllTargets(zips)
    ensures total == |written - existing|
    ensures count == ZipsCounted(zips, existing)
    ensures count <= |zips| && count <= total
    ensures count == 0 <==> total == 0
  {
    TakeAll(zips);
  }
}
