/** POSIX path-name operations: `os.path.split`, `os.path.splitext`,
    `os.path.join` with two arguments, and `pathlib`'s `name`, `stem` and
    `suffix`. Paths are plain strings with '/' as separator. */
module Paths {
  import opened Strings

  predicate IsSlash(c: char) { c == '/' }

  predicate AllSlashes(s: string) { forall i :: 0 <= i < |s| ==> s[i] == '/' }

  /** `os.path.split(p)`: the tail is everything after the last '/'; the head
      is everything before it, with trailing slashes removed unless the head
      is made of slashes only. */
  function Split(p: string): (r: (string, string))
    ensures '/' !in r.1 && |r.1| <= |p| && p[|p| - |r.1|..] == r.1
    ensures |r.1| < |p| ==> p[|p| - |r.1| - 1] == '/'
    ensures |r.0| + |r.1| <= |p| && p[..|r.0|] == r.0
    ensures AllSlashes(p[|r.0|..|p| - |r.1|])
    ensures r.0 == [] || AllSlashes(r.0) || r.0[|r.0| - 1] != '/'
  {
    var i := RFind(p, '/') + 1;
    var head, tail := p[..i], p[i..];
    if head != [] && !AllSlashes(head) then
      var h := TrimEnd(head, IsSlash);
      assert p[|h|..i] == head[|h|..];
      (h, tail)
    else (head, tail)
  }

  /** `os.path.join(a, b)`. */
  function Join(a: string, b: string): (r: string)
  {
    if b != [] && b[0] == '/' then b
    else if a == [] || a[|a| - 1] == '/' then a + b
    else a + "/" + b
  }

  /** Joining a directory with a plain name and splitting again gives both back. */
  lemma SplitJoin(head: string, name: string)
    requires name != [] && '/' !in name
    requires head == [] || AllSlashes(head) || head[|head| - 1] != '/'
    ensures Split(Join(head, name)) == (head, name)
  {
    var j := Join(head, name);
    if head == [] {
      assert j == name;
      RFindAt(j, '/', -1);
    } else if head[|head| - 1] == '/' {
      assert j == head + name;
      RFindAt(j, '/', |head| - 1);
      assert j[..|head|] == head;
    } else {
      assert j == head + "/" + name;
      RFindAt(j, '/', |head|);
      var h := j[..|head| + 1];
      assert h == head + "/";
      assert !AllSlashes(h) by { assert h[|head| - 1] != '/'; }
      TrimEndSuffix(head, "/", IsSlash);
    }
  }

  /** Some character of `p[i..j]` is not a dot: the leading-dot scan of
      `splitext`, index by index. */
  predicate NonDotBetween(p: string, i: nat, j: nat)
    requires j <= |p|
    decreases j - i
  {
    i < j && (p[i] != '.' || NonDotBetween(p, i + 1, j))
  }

  lemma {:induction false} NonDotBetweenAt(p: string, i: nat, j: nat, k: nat)
    requires i <= k < j <= |p| && p[k] != '.'
    ensures NonDotBetween(p, i, j)
    decreases k - i
  {
    if p[i] == '.' {
      NonDotBetweenAt(p, i + 1, j, k);
    }
  }

  /** Only dots between `i` and `j`: no non-dot character is found. */
  lemma {:induction false} DotsOnlyBetween(p: string, i: nat, j: nat)
    requires i <= j <= |p|
    requires forall k :: i <= k < j ==> p[k] == '.'
    ensures !NonDotBetween(p, i, j)
    decreases j - i
  {
    if i < j {
      DotsOnlyBetween(p, i + 1, j);
    }
  }

  /** `os.path.splitext(p)`: the extension starts at the last '.' when it lies
      in the last path component, unless everything before that dot in the
      component is dots (a name such as ".bashrc" has no extension). */
  function SplitExt(p: string): (r: (string, string))
    ensures r.0 + r.1 == p
    ensures r.1 != [] ==> r.1[0] == '.' && forall k :: 0 <= k < |r.1| ==> r.1[k] != '/' && (k > 0 ==> r.1[k] != '.')
  {
    var sep := RFind(p, '/');
    var dot := RFind(p, '.');
    if dot > sep && NonDotBetween(p, sep + 1, dot) then
      (p[..dot], p[dot..])
    else (p, "")
  }

  /** A name with a non-dot character before its last dot splits there. */
  lemma SplitExtOfName(stem: string, ext: string)
    requires '/' !in stem && '/' !in ext && '.' !in ext
    requires exists i :: 0 <= i < |stem| && stem[i] != '.'
    ensures SplitExt(stem + "." + ext) == (stem, "." + ext)
  {
    var p := stem + "." + ext;
    RFindAt(p, '.', |stem|);
    RFindAt(p, '/', -1);
    var i :| 0 <= i < |stem| && stem[i] != '.';
    NonDotBetweenAt(p, 0, |stem|, i);
    assert p[..|stem|] == stem && p[|stem|..] == "." + ext;
  }

  /** A name whose only dot leads it (a hidden file's name) has no
      extension. */
  lemma SplitExtLeadingDot(name: string)
    requires |name| >= 1 && name[0] == '.' && '/' !in name
    requires forall k :: 0 < k < |name| ==> name[k] != '.'
    ensures SplitExt(name) == (name, "")
  {
    RFindAt(name, '.', 0);
    RFindAt(name, '/', -1);
    assert !NonDotBetween(name, 0, 0);
  }

  /** `PurePosixPath(p).name` for a path without "." components: the last
      component once trailing slashes are dropped. pathlib also drops "."
      components, so for "dir/." it gives "dir" where this gives ".". */
  function Name(p: string): (r: string)
    ensures '/' !in r
  {
    var q := TrimEnd(p, IsSlash);
    q[RFind(q, '/') + 1..]
  }

  /** A path without a separator is its own final component. */
  lemma NameOfPlain(p: string)
    requires '/' !in p
    ensures Name(p) == p
  {
    assert p == [] || !IsSlash(p[|p| - 1]);
    TrimEndSuffix(p, "", IsSlash);
    assert p + "" == p;
    RFindAt(p, '/', -1);
  }

  /** Index of the dot `stem` and `suffix` cut at, when they cut. */
  function SuffixDot(name: string): (r: Option<nat>)
    ensures r.Some? ==> 0 < r.value < |name| - 1 && name[r.value] == '.' && '.' !in name[r.value + 1..]
  {
    var i := RFind(name, '.');
    if 0 < i < |name| - 1 then Some(i) else None
  }

  /** The stem of a final component. */
  function NameStem(name: string): (r: string)
    ensures r <= name
  {
    match SuffixDot(name)
    case None => name
    case Some(i) => name[..i]
  }

  /** The suffix of a final component. */
  function NameSuffix(name: string): (r: string)
    ensures r == [] || (|r| >= 2 && r[0] == '.' && forall k :: 1 <= k < |r| ==> r[k] != '.')
    ensures NameStem(name) + r == name
  {
    match SuffixDot(name)
    case None => ""
    case Some(i) =>
      assert name[..i] + name[i..] == name;
      name[i..]
  }

  /** `PurePosixPath(p).stem`. */
  function Stem(p: string): string { NameStem(Name(p)) }

  /** `PurePosixPath(p).suffix`. */
  function Suffix(p: string): string { NameSuffix(Name(p)) }

  /** A plain name, a dot and a dot-free extension: the stem is the name and
      the suffix the dot and the extension. */
  lemma StemSuffixOfPlain(name: string, ext: string)
    requires name != "" && '/' !in name && ext != "" && '.' !in ext && '/' !in ext
    ensures Stem(name + "." + ext) == name && Suffix(name + "." + ext) == "." + ext
  {
    var p := name + "." + ext;
    AroundSeparator(name, '.', ext);
    assert p == name + ['.'] + ext;
    NameOfPlain(p);
    RFindAt(p, '.', |name|);
    assert SuffixDot(p) == Some(|name|);
    assert p[|name|..] == "." + ext;
  }
}
