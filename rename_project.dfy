/** `android/rename_project.py`: rename an Android project's package by
    rewriting every text file and moving the package directories. The walks
    run over a `FileTree.Node`; reading, writing, moving and deleting files
    are effects outside the model, and what each step would do is returned
    as a value instead. */
module RenameProject {
  import opened Strings
  import opened FileTree
  import Paths

  // ---------------------------------------------------------------------
  // String transforms
  // ---------------------------------------------------------------------

  /** `rreplace(s, pat, rep, 1)`, that is `rep.join(s.rsplit(pat, 1))`.
      `str.rsplit` raises on an empty separator, so `pat` is non-empty. */
  function RReplace(s: string, pat: string, rep: string): (r: string)
    requires pat != []
    ensures (forall j :: !OccursAt(s, pat, j)) ==> r == s
    ensures forall j :: OccursAt(s, pat, j) && (forall k :: j < k ==> !OccursAt(s, pat, k)) ==>
                          r == s[..j] + rep + s[j + |pat|..]
  {
    match LastIndexOf(s, pat)
    case None => s
    case Some(j) => s[..j] + rep + s[j + |pat|..]
  }

  /** The package name as a relative path: `pkg.replace('.', '/')`. */
  function PackageToPath(pkg: string): (r: string)
    ensures |r| == |pkg| && '.' !in r
    ensures forall i :: 0 <= i < |pkg| ==> r[i] == if pkg[i] == '.' then '/' else pkg[i]
  {
    var r := Replace(pkg, ".", "/");
    ReplaceCharRemovesAll(pkg, '.', '/');
    forall i | 0 <= i < |pkg|
      ensures r[i] == if pkg[i] == '.' then '/' else pkg[i]
    {
      ReplaceCharAt(pkg, '.', '/', i);
    }
    r
  }

  /** The new content of a text file: the dotted package replaced first,
      then its path form. */
  function RewriteText(text: string, oldPackage: string, newPackage: string): string
  {
    Replace(Replace(text, oldPackage, newPackage), PackageToPath(oldPackage), PackageToPath(newPackage))
  }

  /** `on_walk_project_file_android`: binary files are left untouched and
      reported falsy; a text file gets its new content and is reported. */
  function OnWalkProjectFile(isBinary: bool, text: string, oldPackage: string, newPackage: string): (r: Option<string>)
    ensures r.None? <==> isBinary
    ensures r.Some? ==> r.value == RewriteText(text, oldPackage, newPackage)
  {
    if isBinary then None else Some(RewriteText(text, oldPackage, newPackage))
  }

  lemma {:induction false} ReplaceAllSelf(s: string, pat: string)
    requires pat != []
    ensures ReplaceAll(s, pat, pat) == s
    decreases |s|
  {
    if |s| >= |pat| {
      if pat <= s {
        ReplaceAllSelf(s[|pat|..], pat);
        assert s == pat + s[|pat|..];
      } else {
        ReplaceAllSelf(s[1..], pat);
        assert s == [s[0]] + s[1..];
      }
    }
  }

  lemma {:induction false} InterleaveNothing(s: string)
    ensures InterleaveEmpty(s, "") == s
    decreases |s|
  {
    if s != [] {
      InterleaveNothing(s[1..]);
      assert s == [s[0]] + s[1..];
    }
  }

  /** Renaming a package to itself leaves every text file as it was. */
  lemma RewriteSamePackage(text: string, pkg: string)
    ensures RewriteText(text, pkg, pkg) == text
  {
    var p := PackageToPath(pkg);
    if pkg == [] {
      InterleaveNothing(text);
      InterleaveNothing(text);
    } else {
      ReplaceAllSelf(text, pkg);
      ReplaceAllSelf(text, p);
    }
  }

  /** A text file that mentions neither form of the old package is unchanged. */
  lemma RewriteUnrelated(text: string, oldPackage: string, newPackage: string)
    requires oldPackage != []
    requires !Contains(text, oldPackage) && !Contains(text, PackageToPath(oldPackage))
    ensures RewriteText(text, oldPackage, newPackage) == text
  {
    ReplaceAbsent(text, oldPackage, newPackage);
    ReplaceAbsent(text, PackageToPath(oldPackage), PackageToPath(newPackage));
  }

  // ---------------------------------------------------------------------
  // Directory moves
  // ---------------------------------------------------------------------

  /** What `update_dir_tree` does to the file system: the directory is moved
      to `destination` after the subtree `removed` is deleted. `base` is the
      directory's path with the old package path cut off. */
  datatype DirMove = DirMove(base: string, removed: string, destination: string)

  /** `update_dir_tree(dir, srcPart, dstPart)` as path arithmetic. */
  function UpdateDirTree(dir: string, srcPart: string, dstPart: string): (m: DirMove)
    ensures m.destination == m.base + "/" + dstPart
    ensures m.removed == m.base + "/" + Split(srcPart, '/')[0]
  {
    var base := RReplace(dir, "/" + srcPart, "");
    BeforeIsFirstPiece(srcPart, '/');
    DirMove(base, base + "/" + Before(srcPart, '/'), base + "/" + dstPart)
  }

  /** When the directory really ends in "/" + the package path, the base is
      exactly the directory above the package. */
  lemma UpdateDirTreeAtBoundary(dir: string, srcPart: string, dstPart: string)
    requires EndsWith(dir, "/" + srcPart)
    ensures UpdateDirTree(dir, srcPart, dstPart).base + "/" + srcPart == dir
  {
    var pat := "/" + srcPart;
    var j := |dir| - |pat|;
    assert OccursAt(dir, pat, j);
    assert dir[..j] + "" + dir[j + |pat|..] == dir[..j];
    assert dir[..j] + pat == dir;
  }

  /** `on_walk_project_dir` as written: it acts on a directory whose path
      ends with the old package path, with no check that a separator comes
      before that suffix. */
  function OnWalkProjectDir(dir: string, oldPackage: string, newPackage: string): (r: Option<DirMove>)
    ensures r.Some? <==> EndsWith(dir, PackageToPath(oldPackage))
  {
    var oldPath := PackageToPath(oldPackage);
    if EndsWith(dir, oldPath) then Some(UpdateDirTree(dir, oldPath, PackageToPath(newPackage))) else None
  }

  /** The guard lets "xa/b" through for package "a.b", but "/a/b" does not
      occur in it, so the base is the whole directory and the move lands
      inside the directory being moved. */
  lemma OnWalkProjectDirSuffixMatch()
    ensures var r := OnWalkProjectDir("xa/b", "a.b", "c");
            r.Some? && r.value.base == "xa/b" && r.value.destination == "xa/b/c"
  {
    PackagePathsExample();
    SeparatedSuffixAbsent();
    UpdateDirTreeUnmatched("xa/b", "a/b", "c");
    assert "xa/b"[1..] == "a/b";
    assert "xa/b" + "/" + "c" == "xa/b/c";
  }

  lemma PackagePathsExample()
    ensures PackageToPath("a.b") == "a/b" && PackageToPath("c") == "c"
  {
    var oldPath := PackageToPath("a.b");
    assert oldPath[0] == 'a' && oldPath[1] == '/' && oldPath[2] == 'b';
  }

  lemma SeparatedSuffixAbsent()
    ensures forall j :: !OccursAt("xa/b", "/" + "a/b", j)
  {
    var pat := "/" + "a/b";
    assert pat == "/a/b";
    assert "xa/b"[0] != pat[0];
  }

  /** Where "/" and the old path do not occur, the base is the whole
      directory. */
  lemma UpdateDirTreeUnmatched(dir: string, srcPart: string, dstPart: string)
    requires forall j :: !OccursAt(dir, "/" + srcPart, j)
    ensures UpdateDirTree(dir, srcPart, dstPart).base == dir
    ensures UpdateDirTree(dir, srcPart, dstPart).destination == dir + "/" + dstPart
  {
  }

  /** The guard with the separator the path arithmetic relies on. */
  function OnWalkProjectDirChecked(dir: string, oldPackage: string, newPackage: string): (r: Option<DirMove>)
    ensures r.Some? <==> EndsWith(dir, "/" + PackageToPath(oldPackage))
    ensures r.Some? ==> r.value.base + "/" + PackageToPath(oldPackage) == dir
    ensures r.Some? ==> r.value.destination == r.value.base + "/" + PackageToPath(newPackage)
  {
    var oldPath := PackageToPath(oldPackage);
    if EndsWith(dir, "/" + oldPath) then
      UpdateDirTreeAtBoundary(dir, oldPath, PackageToPath(newPackage));
      Some(UpdateDirTree(dir, oldPath, PackageToPath(newPackage)))
    else None
  }

  // ---------------------------------------------------------------------
  // The walks
  // ---------------------------------------------------------------------

  /** The `pred` argument: `None` accepts everything. */
  datatype Filter = All | Where(accept: string -> bool)

  predicate Accepts(f: Filter, p: string) { f.All? || f.accept(p) }

  /** The files `find_files_recursively(path, pred)` collects below a node. */
  function Files(path: string, t: Node, f: Filter): seq<string>
    decreases t, 0
  {
    match t
    case Dir(_, es) => FilesIn(path, es, f)
    case _ => []
  }

  /** The same for the first entries of a listing. */
  function FilesIn(path: string, es: seq<Node>, f: Filter): seq<string>
    decreases es, 2
  {
    if es == [] then []
    else FilesIn(path, es[..|es| - 1], f) + EntryFiles(path, es[|es| - 1], f)
  }

  /** What one listed entry contributes. */
  function EntryFiles(path: string, e: Node, f: Filter): seq<string>
    decreases e, 1
  {
    var p := ChildPath(path, e);
    match e
    case Dir(_, _) => Files(p, e, f)
    case File(_) => if Accepts(f, p) then [p] else []
    case Other(_) => []
  }

  /** `find_files_recursively(path, pred, ls)`: appends to the accumulator. */
  method FindFilesRecursively(path: string, t: Node, f: Filter, ls: seq<string>) returns (r: seq<string>)
    ensures r == ls + Files(path, t, f)
    decreases t, 1
  {
    r := ls;
    if !t.Dir? {
      return;
    }
    var es := t.entries;
    var i := 0;
    while i < |es|
      invariant i <= |es|
      invariant r == ls + FilesIn(path, es[..i], f)
    {
      FilesInStep(path, es, i, f);
      r := ChildFiles(path, t, i, f, r);
      i := i + 1;
    }
    TakeAll(es);
  }

  /** The loop body of `find_files_recursively` for entry `i` of `t`: recurse
      into a directory, collect an accepted file. */
  method ChildFiles(path: string, t: Node, i: nat, f: Filter, r: seq<string>) returns (r': seq<string>)
    requires t.Dir? && i < |t.entries|
    ensures r' == r + EntryFiles(path, t.entries[i], f)
    decreases t, 0
  {
    var e := t.entries[i];
    var p := ChildPath(path, e);
    r' := r;
    if e.Dir? {
      assert e in t.entries;
      r' := FindFilesRecursively(p, e, f, r);
    } else if e.File? {
      if Accepts(f, p) {
        r' := r + [p];
      }
    }
  }

  /** The directories `find_dirs_recursively(path, pred)` collects below a
      node: each accepted directory, then whatever lies below it. */
  function Dirs(path: string, t: Node, f: Filter): seq<string>
    decreases t, 0
  {
    match t
    case Dir(_, es) => DirsIn(path, es, f)
    case _ => []
  }

  function DirsIn(path: string, es: seq<Node>, f: Filter): seq<string>
    decreases es, 2
  {
    if es == [] then []
    else DirsIn(path, es[..|es| - 1], f) + EntryDirs(path, es[|es| - 1], f)
  }

  function EntryDirs(path: string, e: Node, f: Filter): seq<string>
    decreases e, 1
  {
    var p := ChildPath(path, e);
    if e.Dir? then (if Accepts(f, p) then [p] else []) + Dirs(p, e, f) else []
  }

  /** `find_dirs_recursively(path, pred, ls)`. */
  method FindDirsRecursively(path: string, t: Node, f: Filter, ls: seq<string>) returns (r: seq<string>)
    ensures r == ls + Dirs(path, t, f)
    decreases t, 1
  {
    r := ls;
    if !t.Dir? {
      return;
    }
    var es := t.entries;
    var i := 0;
    while i < |es|
      invariant i <= |es|
      invariant r == ls + DirsIn(path, es[..i], f)
    {
      DirsInStep(path, es, i, f);
      r := ChildDirs(path, t, i, f, r);
      i := i + 1;
    }
    TakeAll(es);
  }

  /** The loop body of `find_dirs_recursively` for entry `i` of `t`: an
      accepted directory is appended before its own contents. */
  method ChildDirs(path: string, t: Node, i: nat, f: Filter, r: seq<string>) returns (r': seq<string>)
    requires t.Dir? && i < |t.entries|
    ensures r' == r + EntryDirs(path, t.entries[i], f)
    decreases t, 0
  {
    var e := t.entries[i];
    var p := ChildPath(path, e);
    r' := r;
    if e.Dir? {
      if Accepts(f, p) {
        r' := r' + [p];
      }
      assert e in t.entries;
      r' := FindDirsRecursively(p, e, f, r');
    }
  }

  /** One more entry of a listing in the loop of either walk. */
  lemma FilesInStep(path: string, es: seq<Node>, i: nat, f: Filter)
    requires i < |es|
    ensures FilesIn(path, es[..i + 1], f) == FilesIn(path, es[..i], f) + EntryFiles(path, es[i], f)
  {
    assert es[..i + 1][..i] == es[..i];
  }

  lemma DirsInStep(path: string, es: seq<Node>, i: nat, f: Filter)
    requires i < |es|
    ensures DirsIn(path, es[..i + 1], f) == DirsIn(path, es[..i], f) + EntryDirs(path, es[i], f)
  {
    assert es[..i + 1][..i] == es[..i];
  }

  /** Filtering the files is the same as listing them all and keeping the
      accepted ones. */
  lemma {:induction false} FilesFilter(path: string, t: Node, accept: string -> bool)
    ensures Files(path, t, Where(accept)) == Keep(Files(path, t, All), accept)
    decreases t, 0
  {
    if t.Dir? {
      FilesInFilter(path, t.entries, accept);
    }
  }

  lemma {:induction false} FilesInFilter(path: string, es: seq<Node>, accept: string -> bool)
    ensures FilesIn(path, es, Where(accept)) == Keep(FilesIn(path, es, All), accept)
    decreases es, 2
  {
    if es != [] {
      var front := es[..|es| - 1];
      FilesInFilter(path, front, accept);
      EntryFilesFilter(path, es[|es| - 1], accept);
      KeepAppend(FilesIn(path, front, All), EntryFiles(path, es[|es| - 1], All), accept);
    }
  }

  lemma {:induction false} EntryFilesFilter(path: string, e: Node, accept: string -> bool)
    ensures EntryFiles(path, e, Where(accept)) == Keep(EntryFiles(path, e, All), accept)
    decreases e, 1
  {
    var p := ChildPath(path, e);
    if e.Dir? {
      FilesFilter(p, e, accept);
    } else if e.File? {
      KeepOne(p, accept);
    }
  }

  /** An accepted directory is still descended into: filtering the
      directories keeps exactly the accepted ones of the full preorder list. */
  lemma {:induction false} DirsFilter(path: string, t: Node, accept: string -> bool)
    ensures Dirs(path, t, Where(accept)) == Keep(Dirs(path, t, All), accept)
    decreases t, 0
  {
    if t.Dir? {
      DirsInFilter(path, t.entries, accept);
    }
  }

  lemma {:induction false} DirsInFilter(path: string, es: seq<Node>, accept: string -> bool)
    ensures DirsIn(path, es, Where(accept)) == Keep(DirsIn(path, es, All), accept)
    decreases es, 2
  {
    if es != [] {
      var front := es[..|es| - 1];
      DirsInFilter(path, front, accept);
      EntryDirsFilter(path, es[|es| - 1], accept);
      KeepAppend(DirsIn(path, front, All), EntryDirs(path, es[|es| - 1], All), accept);
    }
  }

  lemma {:induction false} EntryDirsFilter(path: string, e: Node, accept: string -> bool)
    ensures EntryDirs(path, e, Where(accept)) == Keep(EntryDirs(path, e, All), accept)
    decreases e, 1
  {
    var p := ChildPath(path, e);
    if e.Dir? {
      var all := Dirs(p, e, All);
      DirsFilter(p, e, accept);
      KeepAppend([p], all, accept);
      KeepOne(p, accept);
      assert EntryDirs(path, e, All) == [p] + all;
      assert EntryDirs(path, e, Where(accept)) == (if accept(p) then [p] else []) + Dirs(p, e, Where(accept));
    }
  }

  /** A plain file as the root: both walks return the accumulator unchanged. */
  lemma NonDirectoryRoot(path: string, name: string, f: Filter)
    ensures Files(path, File(name), f) == [] && Dirs(path, File(name), f) == []
    ensures Files(path, Other(name), f) == [] && Dirs(path, Other(name), f) == []
  {
  }

  /** `process_android_project`: the files that get rewritten (the text
      files, in walk order) and the directories the package move applies to. */
  function FilesRewritten(root: string, t: Node, isBinary: string -> bool): seq<string>
  {
    Files(root, t, Where(p => !isBinary(p)))
  }

  /** The directories the move applies to, with the separator-checked guard
      of `OnWalkProjectDirChecked`. */
  function DirsMatched(root: string, t: Node, oldPackage: string): seq<string>
  {
    Dirs(root, t, Where(d => EndsWith(d, "/" + PackageToPath(oldPackage))))
  }

  /** Exactly the directories of the tree that end in "/" + the package path
      are moved, and each of them has a base one package path above it. */
  lemma DirsMatchedAreChecked(root: string, t: Node, oldPackage: string, newPackage: string)
    ensures forall d :: d in DirsMatched(root, t, oldPackage) <==>
                          d in Dirs(root, t, All) && OnWalkProjectDirChecked(d, oldPackage, newPackage).Some?
  {
    DirsFilter(root, t, d => EndsWith(d, "/" + PackageToPath(oldPackage)));
  }

  /** Exactly the non-binary files of the tree are rewritten. */
  lemma FilesRewrittenAreText(root: string, t: Node, isBinary: string -> bool)
    ensures forall p :: p in FilesRewritten(root, t, isBinary) <==> p in Files(root, t, All) && !isBinary(p)
  {
    FilesFilter(root, t, p => !isBinary(p));
  }
}
