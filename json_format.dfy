/** `file/json_format.py`: pretty-print a JSON file next to itself, under the
    name `<base>_format<ext>`. Reading, formatting and writing the file are
    outside the model; what is modelled is where the output goes and when
    anything is written at all. */
module JsonFormat {
  import opened Strings
  import Paths

  /** The name of the output file within its directory. */
  function FormattedName(name: string): (r: string)
    ensures |r| == |name| + 7
    ensures ('/' !in name) ==> '/' !in r
  {
    var parts := Paths.SplitExt(name);
    parts.0 + "_format" + parts.1
  }

  /** "_format" goes in front of the kept extension: splitting the formatted
      name again gives the input's base with "_format" appended, and the
      input's own extension. */
  lemma FormattedNameSplitExt(name: string)
    requires '/' !in name
    ensures Paths.SplitExt(FormattedName(name)) == (Paths.SplitExt(name).0 + "_format", Paths.SplitExt(name).1)
  {
    var (base, ext) := Paths.SplitExt(name);
    var stem := base + "_format";
    assert '/' !in stem by {
      assert forall k :: 0 <= k < |base| ==> base[k] == name[k];
    }
    if ext == "" {
      var dot := RFind(name, '.');
      RFindAt(name, '/', -1);
      RFindAt(stem, '/', -1);
      if dot == -1 {
        RFindAt(stem, '.', -1);
      } else {
        RFindAt(stem, '.', dot);
        forall k | 0 <= k < dot
          ensures name[k] == '.'
        {
          if name[k] != '.' {
            Paths.NonDotBetweenAt(name, 0, dot, k);
          }
        }
        Paths.DotsOnlyBetween(stem, 0, dot);
      }
      assert stem + "" == stem;
    } else {
      assert stem[|base|] == '_';
      assert ext == "." + ext[1..];
      Paths.SplitExtOfName(stem, ext[1..]);
      assert stem + "." + ext[1..] == base + "_format" + ext;
    }
  }

  /** The path `main` writes to: it lies in the input's directory, under the
      formatted name; since that name is seven characters longer, it is never
      the input itself. */
  function FormattedPath(p: string): (r: string)
    ensures Paths.Split(r) == (Paths.Split(p).0, FormattedName(Paths.Split(p).1))
    ensures r != p
  {
    var dirName := Paths.Split(p);
    Paths.SplitJoin(dirName.0, FormattedName(dirName.1));
    Paths.Join(dirName.0, FormattedName(dirName.1))
  }

  /** The extension kept in the output name is the input's `splitext`
      extension; a name made of a leading dot and letters has none. */
  lemma FormattedNameExamples()
    ensures FormattedName("data.json") == "data_format.json"
    ensures FormattedName(".hidden") == ".hidden_format"
  {
    DataJsonName();
    HiddenName();
  }

  lemma DataJsonName()
    ensures FormattedName("data.json") == "data_format.json"
  {
    assert "data"[0] != '.';
    Paths.SplitExtOfName("data", "json");
    assert "data" + "." + "json" == "data.json";
  }

  lemma HiddenName()
    ensures FormattedName(".hidden") == ".hidden_format"
  {
    Paths.SplitExtLeadingDot(".hidden");
  }

  /** `main`: nothing is written when the path is not an existing file, or
      when `format_json_file` raises because the file is not UTF-8 JSON
      (`parses` is false): the exception ends the script before the target
      is computed. Otherwise the formatted text goes to `FormattedPath(p)`. */
  function RunScript(p: string, isFile: bool, parses: bool): (target: Option<string>)
    ensures target.Some? <==> isFile && parses
    ensures target.Some? ==> target.value != p && Paths.Split(target.value).0 == Paths.Split(p).0
    ensures target.Some? ==> target.value == FormattedPath(p)
  {
    if !isFile || !parses then None
    else Some(FormattedPath(p))
  }
}
