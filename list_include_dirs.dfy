/** `cpp/list_include_dirs.py`: list the directories under the working
    directory whose path ends in "include", without looking inside them.
    The starting directory is given by its path and its listing. */
module ListIncludeDirs {
  import opened Strings
  import opened FileTree

  predicate Matches(p: string) { EndsWith(p, "include") }

  /** What `findIncludeDirRecursively(path)` collects from a listing: a
      matching directory is taken whole, any other directory is searched,
      files and other entries are ignored. */
  function IncludeDirs(path: string, es: seq<Node>): (r: seq<string>)
    ensures forall q :: q in r ==> Matches(q)
    decreases es, 2
  {
    if es == [] then [] else IncludeDirs(path, es[..|es| - 1]) + EntryInclude(path, es[|es| - 1])
  }

  function EntryInclude(path: string, e: Node): (r: seq<string>)
    ensures forall q :: q in r ==> Matches(q)
    decreases e, 1
  {
    var p := ChildPath(path, e);
    match e
    case Dir(_, cs) => if Matches(p) then [p] else IncludeDirs(p, cs)
    case _ => []
  }

  /** One more entry adds what that entry contributes. */
  lemma IncludeStep(path: string, es: seq<Node>, i: nat)
    requires i < |es|
    ensures IncludeDirs(path, es[..i + 1]) == IncludeDirs(path, es[..i]) + EntryInclude(path, es[i])
  {
    TakeOneMore(es, i);
    assert es[..i + 1][..i] == es[..i];
  }

  /** `findIncludeDirRecursively(path, ls)`: appends to the accumulator. */
  method FindIncludeDirRecursively(path: string, es: seq<Node>, ls: seq<string>) returns (r: seq<string>)
    ensures r == ls + IncludeDirs(path, es)
    decreases es, 1
  {
    r := ls;
    var i := 0;
    while i < |es|
      invariant i <= |es|
      invariant r == ls + IncludeDirs(path, es[..i])
    {
      IncludeStep(path, es, i);
      r := IncludeEntry(path, es, i, r);
      i := i + 1;
    }
    TakeAll(es);
  }

  /** The loop body for entry `i`: a matching directory is appended, any
      other directory searched. */
  method IncludeEntry(path: string, es: seq<Node>, i: nat, r: seq<string>) returns (r': seq<string>)
    requires i < |es|
    ensures r' == r + EntryInclude(path, es[i])
    decreases es, 0
  {
    var e := es[i];
    var p := ChildPath(path, e);
    r' := r;
    if e.Dir? {
      if EndsWith(p, "include") {
        r' := r + [p];
      } else {
        assert e in es;
        r' := FindIncludeDirRecursively(p, e.entries, r);
      }
    }
  }

  /** Every directory of the tree, parents before children. */
  function AllDirs(path: string, es: seq<Node>): seq<string>
    decreases es, 2
  {
    if es == [] then [] else AllDirs(path, es[..|es| - 1]) + EntryDirs(path, es[|es| - 1])
  }

  function EntryDirs(path: string, e: Node): seq<string>
    decreases e, 1
  {
    var p := ChildPath(path, e);
    match e
    case Dir(_, cs) => [p] + AllDirs(p, cs)
    case _ => []
  }

  /** Every reported path is a directory of the tree. */
  lemma {:induction false} IncludeDirsAreDirs(path: string, es: seq<Node>)
    ensures forall q :: q in IncludeDirs(path, es) ==> q in AllDirs(path, es)
    decreases es, 2
  {
    if es != [] {
      IncludeDirsAreDirs(path, es[..|es| - 1]);
      EntryIncludeAreDirs(path, es[|es| - 1]);
    }
  }

  lemma {:induction false} EntryIncludeAreDirs(path: string, e: Node)
    ensures forall q :: q in EntryInclude(path, e) ==> q in EntryDirs(path, e)
    decreases e, 1
  {
    if e.Dir? && !Matches(ChildPath(path, e)) {
      IncludeDirsAreDirs(ChildPath(path, e), e.entries);
    }
  }

  /** Nothing is reported exactly when no directory path in the tree ends
      in "include": a match below a matched directory is covered by it. */
  lemma {:induction false} NoneIffNoMatch(path: string, es: seq<Node>)
    ensures IncludeDirs(path, es) == [] <==> forall q :: q in AllDirs(path, es) ==> !Matches(q)
    decreases es, 2
  {
    if es != [] {
      NoneIffNoMatch(path, es[..|es| - 1]);
      EntryNoneIffNoMatch(path, es[|es| - 1]);
    }
  }

  lemma {:induction false} EntryNoneIffNoMatch(path: string, e: Node)
    ensures EntryInclude(path, e) == [] <==> forall q :: q in EntryDirs(path, e) ==> !Matches(q)
    decreases e, 1
  {
    var p := ChildPath(path, e);
    if e.Dir? {
      assert p in EntryDirs(path, e);
      if !Matches(p) {
        NoneIffNoMatch(p, e.entries);
      }
    }
  }

  /** The directories the walk looks at: every listed directory, and the
      contents of those that do not match. A directory is here exactly when
      no proper ancestor below the start matches. */
  function Visited(path: string, es: seq<Node>): seq<string>
    decreases es, 2
  {
    if es == [] then [] else Visited(path, es[..|es| - 1]) + EntryVisited(path, es[|es| - 1])
  }

  function EntryVisited(path: string, e: Node): seq<string>
    decreases e, 1
  {
    var p := ChildPath(path, e);
    match e
    case Dir(_, cs) => [p] + (if Matches(p) then [] else Visited(p, cs))
    case _ => []
  }

  /** The result is exactly the matching directories among those the walk
      looks at: each one is reported, and nothing else is. */
  lemma {:induction false} IncludeDirsExactly(path: string, es: seq<Node>)
    ensures forall q :: q in IncludeDirs(path, es) <==> q in Visited(path, es) && Matches(q)
    decreases es, 2
  {
    if es != [] {
      IncludeDirsExactly(path, es[..|es| - 1]);
      EntryIncludeExactly(path, es[|es| - 1]);
    }
  }

  lemma {:induction false} EntryIncludeExactly(path: string, e: Node)
    ensures forall q :: q in EntryInclude(path, e) <==> q in EntryVisited(path, e) && Matches(q)
    decreases e, 1
  {
    var p := ChildPath(path, e);
    if e.Dir? && !Matches(p) {
      IncludeDirsExactly(p, e.entries);
    }
  }

  /** A matched directory is never descended into: what it contains does
      not change the result. */
  lemma MatchedNotDescended(path: string, name: string, cs: seq<Node>, cs': seq<Node>)
    requires Matches(ChildPath(path, Dir(name, cs)))
    ensures EntryInclude(path, Dir(name, cs)) == EntryInclude(path, Dir(name, cs')) == [ChildPath(path, Dir(name, cs))]
  {
  }
}
