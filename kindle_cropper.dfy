/** image/kindle-pdf-cropper.py: the crop geometry. Offsets typed as
    "top,right,bottom,left" are taken off the size of page 0, and the same
    ImageMagick `-crop WxH+X+Y` is applied to a test page or to every page. */
module KindleCropper {
  import opened Strings
  import Paths

  // ---------------------------------------------------------------------
  // paths derived from the PDF
  // ---------------------------------------------------------------------

  /** The directory of the PDF, its base name without extension, and the
      image directory next to it named after that base name. */
  datatype PdfPaths = PdfPaths(srcPath: string, baseFilename: string, imagePath: string)

  function PathsOf(srcPdf: string): (r: PdfPaths)
    ensures r.imagePath == r.srcPath + "/" + r.baseFilename
  {
    var (dir, name) := Paths.Split(srcPdf);
    var base := Paths.SplitExt(name).0;
    PdfPaths(dir, base, dir + "/" + base)
  }

  /** For "<dir>/<stem>.pdf" the images go to "<dir>/<stem>", which is a
      directory beside the PDF. */
  lemma PathsOfPdf(dir: string, stem: string)
    requires dir != [] && dir[|dir| - 1] != '/'
    requires stem != [] && stem[0] != '.' && '/' !in stem
    ensures PathsOf(dir + "/" + stem + ".pdf") == PdfPaths(dir, stem, dir + "/" + stem)
    ensures Paths.Split(PathsOf(dir + "/" + stem + ".pdf").imagePath) == (dir, stem)
  {
    var name := stem + ".pdf";
    assert name == stem + "." + "pdf";
    assert dir + "/" + stem + ".pdf" == Paths.Join(dir, name);
    assert '/' !in name;
    Paths.SplitJoin(dir, name);
    assert 0 <= 0 < |stem| && stem[0] != '.';
    Paths.SplitExtOfName(stem, "pdf");
    assert dir + "/" + stem == Paths.Join(dir, stem);
    Paths.SplitJoin(dir, stem);
  }

  // ---------------------------------------------------------------------
  // offsets
  // ---------------------------------------------------------------------

  datatype Offsets = Offsets(top: int, right: int, bottom: int, left: int)

  /** What the offset line gives: a piece that is not an integer raises
      `ValueError`, fewer than four pieces print "Incorrect input". */
  datatype Parsed = NotInteger | TooFew | Parsed(offsets: Offsets)

  /** `list(map(lambda x: int(x.strip()), pieces))`. */
  function Integers(pieces: seq<string>): (r: Option<seq<int>>)
    ensures r.Some? ==> |r.value| == |pieces|
  {
    if pieces == [] then Some([])
    else
      var n := |pieces| - 1;
      match Integers(pieces[..n])
      case None => None
      case Some(vs) =>
        match ParseInt(pieces[n])
        case None => None
        case Some(v) => Some(vs + [v])
  }

  /** Every piece parses and the values keep their order, or some piece is
      not an integer. */
  lemma IntegersMeaning(pieces: seq<string>)
    ensures Integers(pieces).Some? ==>
      forall k :: 0 <= k < |pieces| ==> ParseInt(pieces[k]) == Some(Integers(pieces).value[k])
    ensures Integers(pieces).None? ==> exists k :: 0 <= k < |pieces| && ParseInt(pieces[k]).None?
  {
    if Integers(pieces).Some? {
      IntegersAllParse(pieces);
    } else {
      IntegersSomeFails(pieces);
    }
  }

  lemma {:induction false} IntegersAllParse(pieces: seq<string>)
    requires Integers(pieces).Some?
    ensures forall k :: 0 <= k < |pieces| ==> ParseInt(pieces[k]) == Some(Integers(pieces).value[k])
    decreases |pieces|
  {
    if pieces != [] {
      var n := |pieces| - 1;
      var init, last := pieces[..n], pieces[n];
      FrontLast(pieces);
      IntegersSnoc(init, last);
      IntegersAllParse(init);
      var vs := Integers(init).value;
      assert Integers(pieces).value == vs + [ParseInt(last).value];
      forall k | 0 <= k < |pieces|
        ensures ParseInt(pieces[k]) == Some(Integers(pieces).value[k])
      {
        if k < n {
          assert pieces[k] == init[k];
        }
      }
    }
  }

  lemma {:induction false} IntegersSomeFails(pieces: seq<string>)
    requires Integers(pieces).None?
    ensures exists k :: 0 <= k < |pieces| && ParseInt(pieces[k]).None?
    decreases |pieces|
  {
    var n := |pieces| - 1;
    var init, last := pieces[..n], pieces[n];
    FrontLast(pieces);
    IntegersSnoc(init, last);
    if ParseInt(last).Some? {
      IntegersSomeFails(init);
      var k :| 0 <= k < n && ParseInt(init[k]).None?;
      assert pieces[k] == init[k];
    } else {
      assert ParseInt(pieces[n]).None?;
    }
  }

  function ParseOffsets(line: string): (p: Parsed)
    ensures p.Parsed? ==> |Split(line, ',')| >= 4
  {
    match Integers(Split(line, ','))
    case None => NotInteger
    case Some(vs) =>
      if |vs| < 4 then TooFew else Parsed(Offsets(vs[0], vs[1], vs[2], vs[3]))
  }

  lemma IntToStringNoComma(n: int)
    ensures ',' !in IntToString(n)
  {
    DigitsHaveNo(NatToString(if n < 0 then -n else n), ',');
  }

  /** Four numbers typed as "top,right,bottom,left" read back in that order,
      and any further numbers are ignored. */
  lemma OffsetsRoundTrip(o: Offsets, extra: seq<int>)
    ensures ParseOffsets(Join(Rendered([o.top, o.right, o.bottom, o.left] + extra), ",")) == Parsed(o)
  {
    var vs := [o.top, o.right, o.bottom, o.left] + extra;
    var pieces := Rendered(vs);
    forall k | 0 <= k < |pieces|
      ensures ',' !in pieces[k]
    {
      IntToStringNoComma(vs[k]);
    }
    SplitJoin(pieces, ',');
    RenderedParses(vs);
  }

  /** `str(v)` of each number. */
  function Rendered(vs: seq<int>): (r: seq<string>)
    ensures |r| == |vs|
    ensures forall k :: 0 <= k < |vs| ==> r[k] == IntToString(vs[k])
  {
    seq(|vs|, k requires 0 <= k < |vs| => IntToString(vs[k]))
  }

  lemma {:induction false} RenderedParses(vs: seq<int>)
    ensures Integers(Rendered(vs)) == Some(vs)
    decreases |vs|
  {
    if vs != [] {
      var n := |vs| - 1;
      var init, last := Rendered(vs[..n]), IntToString(vs[n]);
      RenderedSnoc(vs);
      RenderedParses(vs[..n]);
      ParseIntToString(vs[n]);
      IntegersSnoc(init, last);
      FrontLast(vs);
    }
  }

  lemma RenderedSnoc(vs: seq<int>)
    requires vs != []
    ensures Rendered(vs) == Rendered(vs[..|vs| - 1]) + [IntToString(vs[|vs| - 1])]
  {
  }

  /** One more piece after `ps`. */
  lemma IntegersSnoc(ps: seq<string>, p: string)
    ensures Integers(ps + [p]) ==
      if Integers(ps).Some? && ParseInt(p).Some? then Some(Integers(ps).value + [ParseInt(p).value]) else None
  {
    var q := ps + [p];
    assert q[|q| - 1] == p;
    assert q[..|q| - 1] == ps;
  }

  /** An empty line is one empty piece, which `int()` rejects; "1,2,3" is
      three numbers, too few. */
  lemma OffsetLineEdges()
    ensures ParseOffsets("") == NotInteger
    ensures ParseOffsets("1,2,3") == TooFew
  {
    assert Split("", ',') == [""];
    assert Strip("") == "";
    assert Integers([""]) == None by {
      assert [""][..0] == [];
    }
    var pieces := ["1", "2", "3"];
    assert Join(pieces, ",") == "1,2,3" by {
      assert pieces[1..] == ["2", "3"] && pieces[1..][1..] == ["3"];
    }
    SplitJoin(pieces, ',');
    assert Rendered([1, 2, 3]) == pieces;
    RenderedParses([1, 2, 3]);
  }

  // ---------------------------------------------------------------------
  // geometry
  // ---------------------------------------------------------------------

  /** An ImageMagick crop rectangle: size and top-left corner. */
  datatype Box = Box(width: int, height: int, x: int, y: int)

  /** The rectangle left after taking the offsets off a `width` x `height` page. */
  function CropBox(width: int, height: int, o: Offsets): (b: Box)
    ensures o.left + b.width + o.right == width
    ensures o.top + b.height + o.bottom == height
    ensures b.x == o.left && b.y == o.top
  {
    Box(width - o.left - o.right, height - o.top - o.bottom, o.left, o.top)
  }

  /** The `-crop` argument "WxH+X+Y": a single word of the shell command. */
  function CropArg(b: Box): (r: string)
    ensures ' ' !in r
  {
    IntToStringHas(b.width, ' ');
    IntToStringHas(b.height, ' ');
    IntToStringHas(b.x, ' ');
    IntToStringHas(b.y, ' ');
    IntToString(b.width) + "x" + IntToString(b.height) + "+" + IntToString(b.x) + "+" + IntToString(b.y)
  }

  lemma IntToStringHas(n: int, c: char)
    requires c == 'x' || c == '+' || c == ' '
    ensures c !in IntToString(n)
  {
    DigitsHaveNo(NatToString(if n < 0 then -n else n), c);
  }

  /** The argument reads back as the rectangle: split at '+', the size at 'x'. */
  lemma CropArgReadsBack(b: Box)
    ensures Split(CropArg(b), '+') == [IntToString(b.width) + "x" + IntToString(b.height), IntToString(b.x), IntToString(b.y)]
    ensures Split(IntToString(b.width) + "x" + IntToString(b.height), 'x') == [IntToString(b.width), IntToString(b.height)]
    ensures ParseInt(IntToString(b.width)) == Some(b.width) && ParseInt(IntToString(b.height)) == Some(b.height)
    ensures ParseInt(IntToString(b.x)) == Some(b.x) && ParseInt(IntToString(b.y)) == Some(b.y)
  {
    var size := IntToString(b.width) + "x" + IntToString(b.height);
    var parts := [size, IntToString(b.x), IntToString(b.y)];
    IntToStringHas(b.width, '+');
    IntToStringHas(b.height, '+');
    IntToStringHas(b.x, '+');
    IntToStringHas(b.y, '+');
    IntToStringHas(b.width, 'x');
    IntToStringHas(b.height, 'x');
    assert parts[1..] == [IntToString(b.x), IntToString(b.y)] && parts[1..][1..] == [IntToString(b.y)];
    assert Join(parts[1..][1..], "+") == IntToString(b.y);
    assert Join(parts[1..], "+") == IntToString(b.x) + "+" + IntToString(b.y);
    assert Join(parts, "+") == CropArg(b);
    SplitJoin(parts, '+');
    var sizes := [IntToString(b.width), IntToString(b.height)];
    assert sizes[1..] == [IntToString(b.height)];
    assert Join(sizes[1..], "x") == IntToString(b.height);
    assert Join(sizes, "x") == size;
    SplitJoin(sizes, 'x');
    ParseIntToString(b.width);
    ParseIntToString(b.height);
    ParseIntToString(b.x);
    ParseIntToString(b.y);
  }

  // ---------------------------------------------------------------------
  // the image number
  // ---------------------------------------------------------------------

  function Zeros(k: nat): (z: string)
    ensures |z| == k && forall i :: 0 <= i < k ==> z[i] == '0'
  {
    seq(k, _ => '0')
  }

  /** `'{0:06d}'.format(n)`: the sign, then zeros, then the digits, six
      characters at least. */
  function Pad6(n: int): (s: string)
    ensures |s| >= 6
    ensures ' ' !in s
  {
    var digits := NatToString(if n < 0 then -n else n);
    DigitsHaveNo(digits, ' ');
    var sign := if n < 0 then "-" else "";
    var width := |sign| + |digits|;
    sign + Zeros(if width < 6 then 6 - width else 0) + digits
  }

  lemma {:induction false} LeadingZeros(k: nat, d: string)
    requires forall i :: 0 <= i < |d| ==> IsDigit(d[i])
    ensures forall i :: 0 <= i < |Zeros(k) + d| ==> IsDigit((Zeros(k) + d)[i])
    ensures DigitsValue(Zeros(k) + d) == DigitsValue(d)
    decreases |d|
  {
    var s := Zeros(k) + d;
    if d == [] {
      assert s == Zeros(k);
      ZerosValue(k);
    } else {
      var n := |d| - 1;
      assert s[..|s| - 1] == Zeros(k) + d[..n];
      LeadingZeros(k, d[..n]);
    }
  }

  lemma {:induction false} ZerosValue(k: nat)
    ensures DigitsValue(Zeros(k)) == 0
    decreases k
  {
    if k > 0 {
      assert Zeros(k)[..k - 1] == Zeros(k - 1);
      ZerosValue(k - 1);
    }
  }

  /** Zeros put before the digits of `m` change neither their being digits
      nor their value. */
  lemma PaddedDigits(k: nat, m: nat)
    ensures AllDigits(Zeros(k) + NatToString(m))
    ensures DigitsValue(Zeros(k) + NatToString(m)) == m
  {
    LeadingZeros(k, NatToString(m));
    NatToStringValue(m);
  }

  /** `int()` of an optional minus sign followed by the digits of `|n|`. */
  lemma ParseSigned(n: int, body: string)
    requires AllDigits(body) && DigitsValue(body) == (if n < 0 then -n else n)
    ensures ParseInt((if n < 0 then "-" else "") + body) == Some(n)
  {
    var s := (if n < 0 then "-" else "") + body;
    assert s[|s| - 1] == body[|body| - 1];
    DigitNotSpace(body[|body| - 1]);
    if n < 0 {
      assert s[0] == '-' && s[1..] == body;
    } else {
      assert s == body;
      DigitNotSpace(body[0]);
    }
    StripIdentity(s);
  }

  /** The padded number converts back with `int()`: "000012" is page 12. */
  lemma Pad6RoundTrip(n: int)
    ensures ParseInt(Pad6(n)) == Some(n)
  {
    var m := if n < 0 then -n else n;
    var sign := if n < 0 then "-" else "";
    var width := |sign| + |NatToString(m)|;
    var k := if width < 6 then 6 - width else 0;
    var body := Zeros(k) + NatToString(m);
    PaddedDigits(k, m);
    assert Pad6(n) == (if n < 0 then "-" else "") + body;
    ParseSigned(n, body);
  }

  /** Page numbers below a million are exactly six characters. */
  lemma Pad6Width(n: nat)
    requires n < 1000000
    ensures |Pad6(n)| == 6
  {
    assert Pow10(6) == 1000000;
    NatDigitsBelow(n, 6);
  }

  function Pow10(k: nat): nat
  {
    if k == 0 then 1 else 10 * Pow10(k - 1)
  }

  /** A number below `10^k` has at most `k` digits. */
  lemma {:induction false} NatDigitsBelow(n: nat, k: nat)
    requires 1 <= k && n < Pow10(k)
    ensures |NatToString(n)| <= k
    decreases n
  {
    assert Pow10(1) == 10;
    if n >= 10 {
      assert n / 10 < Pow10(k - 1);
      NatDigitsBelow(n / 10, k - 1);
    }
  }

  // ---------------------------------------------------------------------
  // the commands
  // ---------------------------------------------------------------------

  /** Page 0, whose size sets the crop for every page. */
  function ReferenceImage(imagePath: string, baseFilename: string): string
  {
    imagePath + "/" + baseFilename + "-000000.jpg"
  }

  /** The reference is the first page the split writes: page 0 of the same
      naming scheme. */
  lemma ReferenceIsPageZero(imagePath: string, baseFilename: string)
    ensures ReferenceImage(imagePath, baseFilename) == PageFile(imagePath, baseFilename, 0)
  {
    assert Pad6(0) == "000000";
  }

  /** A shell command line: its words joined by single spaces. When no
      word holds a space the shell splits the line back into those words. */
  function CommandLine(words: seq<string>): (r: string)
    requires |words| >= 1
    ensures (forall i :: 0 <= i < |words| ==> ' ' !in words[i]) ==> Split(r, ' ') == words
  {
    SplitWords(words);
    Join(words, " ")
  }

  lemma SplitWords(words: seq<string>)
    requires |words| >= 1
    ensures (forall i :: 0 <= i < |words| ==> ' ' !in words[i]) ==> Split(Join(words, " "), ' ') == words
  {
    if forall i :: 0 <= i < |words| ==> ' ' !in words[i] {
      SplitJoin(words, ' ');
    }
  }

  /** `testImageWidth`'s command: crop page `n` of the split's naming into
      "<srcPath>/test.jpg". */
  function TestCommand(imagePath: string, baseFilename: string, srcPath: string, b: Box, n: int): (r: string)
    ensures ' ' !in imagePath && ' ' !in baseFilename && ' ' !in srcPath ==>
      Split(r, ' ') == ["convert", "-crop", CropArg(b), PageFile(imagePath, baseFilename, n), srcPath + "/test.jpg"]
  {
    CommandLine(["convert", "-crop", CropArg(b), PageFile(imagePath, baseFilename, n), srcPath + "/test.jpg"])
  }

  /** `resizeAllImagesWidth`'s command for one listed file: the file is
      both the input and the output of the crop, so the page is overwritten
      with its cropped self. */
  function ResizeCommand(imagePath: string, file: string, b: Box): (r: string)
    ensures ' ' !in imagePath && ' ' !in file ==>
      Split(r, ' ') == ["convert", "-crop", CropArg(b), imagePath + "/" + file, imagePath + "/" + file]
  {
    CommandLine(["convert", "-crop", CropArg(b), imagePath + "/" + file, imagePath + "/" + file])
  }

  /** How a crop step ends: "Incorrect input" (exit -1), an uncaught error
      (a non-integer, or no page 0 to measure), or the commands it runs. */
  datatype Outcome = Incorrect | Fails | Runs(commands: seq<string>)

  /** `testImageWidth`: `size` is the size of page 0, `None` when it cannot
      be opened. */
  function TestImageWidth(paths: PdfPaths, offsetLine: string, numberLine: string, size: Option<(int, int)>): (r: Outcome)
    ensures r.Incorrect? <==> ParseOffsets(offsetLine).TooFew?
    ensures r.Runs? <==> ParseOffsets(offsetLine).Parsed? && ParseInt(numberLine).Some? && size.Some?
    ensures r.Runs? ==> r.commands == [TestCommand(paths.imagePath, paths.baseFilename, paths.srcPath,
      CropBox(size.value.0, size.value.1, ParseOffsets(offsetLine).offsets), ParseInt(numberLine).value)]
  {
    match ParseOffsets(offsetLine)
    case NotInteger => Fails
    case TooFew => Incorrect
    case Parsed(o) =>
      match ParseInt(numberLine)
      case None => Fails
      case Some(n) =>
        match size
        case None => Fails
        case Some((w, h)) =>
          Runs([TestCommand(paths.imagePath, paths.baseFilename, paths.srcPath, CropBox(w, h, o), n)])
  }

  /** `resizeAllImagesWidth`: one in-place crop per listed file, all with
      the geometry measured on page 0. */
  method ResizeAllImagesWidth(paths: PdfPaths, offsetLine: string, size: Option<(int, int)>, files: seq<string>) returns (r: Outcome)
    ensures r.Incorrect? <==> ParseOffsets(offsetLine).TooFew?
    ensures r.Runs? <==> ParseOffsets(offsetLine).Parsed? && size.Some?
    ensures r.Runs? ==> |r.commands| == |files|
    ensures r.Runs? ==> forall k :: 0 <= k < |files| ==>
      r.commands[k] == ResizeCommand(paths.imagePath, files[k], CropBox(size.value.0, size.value.1, ParseOffsets(offsetLine).offsets))
  {
    var parsed := ParseOffsets(offsetLine);
    if parsed.NotInteger? {
      return Fails;
    }
    if parsed.TooFew? {
      return Incorrect;
    }
    if size.None? {
      return Fails;
    }
    var b := CropBox(size.value.0, size.value.1, parsed.offsets);
    var commands := ResizeCommands(paths.imagePath, files, b);
    return Runs(commands);
  }

  /** The `for file in files` loop: one resize command per image, in order. */
  method ResizeCommands(imagePath: string, files: seq<string>, b: Box) returns (commands: seq<string>)
    ensures |commands| == |files|
    ensures forall k :: 0 <= k < |files| ==> commands[k] == ResizeCommand(imagePath, files[k], b)
  {
    commands := [];
    for i := 0 to |files|
      invariant |commands| == i
      invariant forall k :: 0 <= k < i ==> commands[k] == ResizeCommand(imagePath, files[k], b)
    {
      commands := commands + [ResizeCommand(imagePath, files[i], b)];
    }
  }

  // ---------------------------------------------------------------------
  // splitting and merging
  // ---------------------------------------------------------------------

  /** The file ImageMagick writes for page `n` under the `%06d` template. */
  function PageFile(imagePath: string, baseFilename: string, n: int): string
  {
    imagePath + "/" + baseFilename + "-" + Pad6(n) + ".jpg"
  }

  /** `splitPdf2Jpg`'s command: every page of the PDF at the typed density,
      written to "<imagePath>/<baseFilename>-%06d.jpg". */
  function SplitCommand(imagePath: string, baseFilename: string, srcPdf: string, density: string): (r: string)
    ensures ' ' !in imagePath && ' ' !in baseFilename && ' ' !in srcPdf && ' ' !in density ==>
      Split(r, ' ') == ["convert", "-quality", "100", "-density", density, srcPdf, imagePath + "/" + baseFilename + "-%06d.jpg"]
  {
    CommandLine(["convert", "-quality", "100", "-density", density, srcPdf, imagePath + "/" + baseFilename + "-%06d.jpg"])
  }

  /** `mergeJpg2Pdf`'s command: the pages matched by "<imagePath>/<baseFilename>*"
      merged into "<srcPath>/<baseFilename>-kindle.pdf". */
  function MergeCommand(imagePath: string, baseFilename: string, srcPath: string): (r: string)
    ensures ' ' !in imagePath && ' ' !in baseFilename && ' ' !in srcPath ==>
      Split(r, ' ') == ["convert", imagePath + "/" + baseFilename + "*", srcPath + "/" + baseFilename + "-kindle.pdf"]
  {
    CommandLine(["convert", imagePath + "/" + baseFilename + "*", srcPath + "/" + baseFilename + "-kindle.pdf"])
  }

  /** The merge pattern matches every page the split writes: each page's
      path starts with "<imagePath>/<baseFilename>". */
  lemma MergeTakesEveryPage(imagePath: string, baseFilename: string, n: nat)
    ensures imagePath + "/" + baseFilename <= PageFile(imagePath, baseFilename, n)
    ensures |PageFile(imagePath, baseFilename, n)| >= |imagePath + "/" + baseFilename| + 11
  {
    var prefix := imagePath + "/" + baseFilename;
    var rest := "-" + Pad6(n) + ".jpg";
    assert PageFile(imagePath, baseFilename, n) == prefix + rest;
  }

  // ---------------------------------------------------------------------
  // the menu
  // ---------------------------------------------------------------------

  datatype Step = SplitPdf | TestWidth | ResizeAll | MergePdf | Unknown

  /** `int(input())` picks the step; a number other than 1 to 4 is "unkown
      selection" (exit -1), and a line that is not an integer is an
      uncaught error (`None`). */
  function Selection(line: string): (r: Option<Step>)
    ensures r.None? <==> ParseInt(line).None?
    ensures r == Some(Unknown) <==> ParseInt(line).Some? && !(1 <= ParseInt(line).value <= 4)
    ensures r == Some(SplitPdf) <==> ParseInt(line) == Some(1)
    ensures r == Some(TestWidth) <==> ParseInt(line) == Some(2)
    ensures r == Some(ResizeAll) <==> ParseInt(line) == Some(3)
    ensures r == Some(MergePdf) <==> ParseInt(line) == Some(4)
  {
    match ParseInt(line)
    case None => None
    case Some(n) =>
      Some(if n == 1 then SplitPdf else if n == 2 then TestWidth
           else if n == 3 then ResizeAll else if n == 4 then MergePdf else Unknown)
  }

  /** `int()` ignores surrounding whitespace, so " 3\n" picks the resize. */
  lemma SelectionIgnoresSpace()
    ensures Selection(" 3\n") == Some(ResizeAll)
    ensures Selection("x").None?
  {
    ParseSpacedThree();
    SelectionOfThree(" 3\n");
    ParseLetter();
    SelectionOfNothing("x");
  }

  lemma SelectionOfThree(line: string)
    requires ParseInt(line) == Some(3)
    ensures Selection(line) == Some(ResizeAll)
  {
  }

  lemma SelectionOfNothing(line: string)
    requires ParseInt(line).None?
    ensures Selection(line).None?
  {
  }

  lemma ParseSpacedThree()
    ensures ParseInt(" 3\n") == Some(3)
  {
    TrimPadding(" ", "3", "\n", IsSpace);
    assert " " + "3" + "\n" == " 3\n";
    assert Strip(" 3\n") == "3";
    assert AllDigits("3") && DigitsValue("3") == 3;
  }

  lemma ParseLetter()
    ensures ParseInt("x").None?
  {
    StripIdentity("x");
    assert !AllDigits("x");
  }
}
