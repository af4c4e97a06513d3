/** Python `str` operations that the scripts rely on, over `seq<char>`.
    Every function here is written to agree with CPython's behaviour for the
    inputs it is given; the lemmas state the facts the script models use. */
module Strings {

  datatype Option<+T> = None | Some(value: T)

  /** The characters for which Python's `str.isspace()` holds; `strip()`,
      `rstrip()` and `split()` without arguments use exactly these. */
  predicate IsSpace(c: char)
  {
    || c == ' ' || '\t' <= c <= '\r' || '\U{1C}' <= c <= '\U{1F}' || c == '\U{85}' || c == '\U{A0}'
    || c == '\U{1680}' || '\U{2000}' <= c <= '\U{200A}' || c == '\U{2028}' || c == '\U{2029}'
    || c == '\U{202F}' || c == '\U{205F}' || c == '\U{3000}'
  }

  /** The line boundaries recognised by Python's `str.splitlines()`. */
  predicate IsLineBreak(c: char)
  {
    || '\n' <= c <= '\r' || '\U{1C}' <= c <= '\U{1E}' || c == '\U{85}' || c == '\U{2028}' || c == '\U{2029}'
  }

  // ---------------------------------------------------------------------
  // strip / rstrip / lstrip
  // ---------------------------------------------------------------------

  /** `s.rstrip(chars)`: the longest prefix of `s` not ending in `chars`. */
  function TrimEnd(s: string, chars: char -> bool): (r: string)
    ensures r <= s
    ensures r == [] || !chars(r[|r| - 1])
    ensures forall i :: |r| <= i < |s| ==> chars(s[i])
    decreases |s|
  {
    if s == [] || !chars(s[|s| - 1]) then s else TrimEnd(s[..|s| - 1], chars)
  }

  /** `s.lstrip(chars)`: the longest suffix of `s` not starting with `chars`. */
  function TrimStart(s: string, chars: char -> bool): (r: string)
    ensures |r| <= |s|
    ensures r == [] || !chars(r[0])
    ensures forall i :: 0 <= i < |s| - |r| ==> chars(s[i])
    decreases |s|
  {
    if s == [] || !chars(s[0]) then s else TrimStart(s[1..], chars)
  }

  /** `lstrip` keeps a suffix of its argument. */
  lemma {:induction false} TrimStartSuffix(s: string, chars: char -> bool)
    ensures TrimStart(s, chars) == s[|s| - |TrimStart(s, chars)|..]
    decreases |s|
  {
    if s != [] && chars(s[0]) {
      TrimStartSuffix(s[1..], chars);
    }
  }

  /** `rstrip` removes exactly a trailing run of stripped characters. */
  lemma {:induction false} TrimEndSuffix(a: string, b: string, chars: char -> bool)
    requires a == [] || !chars(a[|a| - 1])
    requires forall i :: 0 <= i < |b| ==> chars(b[i])
    ensures TrimEnd(a + b, chars) == a
    decreases |b|
  {
    if b == [] {
      assert a + b == a;
    } else {
      assert (a + b)[..|a + b| - 1] == a + b[..|b| - 1];
      TrimEndSuffix(a, b[..|b| - 1], chars);
    }
  }

  /** `s.strip(chars)`. */
  function Trim(s: string, chars: char -> bool): (r: string)
  {
    TrimStart(TrimEnd(s, chars), chars)
  }

  /** `s.strip()`. */
  function Strip(s: string): string { Trim(s, IsSpace) }

  /** `s.rstrip()`. */
  function RStrip(s: string): string { TrimEnd(s, IsSpace) }

  /** Python's truth value of `s.strip()`: the string has a non-space character. */
  predicate IsBlank(s: string) { forall i :: 0 <= i < |s| ==> IsSpace(s[i]) }

  lemma {:induction false} TrimEndEmptyIff(s: string, chars: char -> bool)
    ensures TrimEnd(s, chars) == [] <==> forall i :: 0 <= i < |s| ==> chars(s[i])
  {
    var r := TrimEnd(s, chars);
    if r == [] {
    } else {
      assert s[|r| - 1] == r[|r| - 1];
    }
  }

  /** `s.strip()` is empty exactly when `s` is blank. */
  lemma StripEmptyIff(s: string)
    ensures Strip(s) == [] <==> IsBlank(s)
  {
    TrimEndEmptyIff(s, IsSpace);
    var t := TrimEnd(s, IsSpace);
    if t != [] {
      assert TrimStart(t, IsSpace) != [] by {
        assert !IsSpace(t[|t| - 1]);
      }
    }
  }

  /** `Strip(s)` is a contiguous piece of `s`: what was removed is whitespace. */
  lemma StripShape(s: string)
    ensures exists i, j :: 0 <= i <= j <= |s| && Strip(s) == s[i..j]
  {
    var t := TrimEnd(s, IsSpace);
    var r := TrimStart(t, IsSpace);
    TrimStartSuffix(t, IsSpace);
    assert r == s[|t| - |r|..|t|];
  }

  lemma StripNoEdgeSpace(s: string)
    ensures Strip(s) == [] || (!IsSpace(Strip(s)[0]) && !IsSpace(Strip(s)[|Strip(s)| - 1]))
  {
    var t := TrimEnd(s, IsSpace);
    var r := TrimStart(t, IsSpace);
    TrimStartSuffix(t, IsSpace);
    if r != [] {
      assert r[|r| - 1] == t[|t| - 1];
    }
  }

  /** Stripping a string without whitespace at either end changes nothing. */
  lemma StripIdentity(s: string)
    requires s == [] || (!IsSpace(s[0]) && !IsSpace(s[|s| - 1]))
    ensures Strip(s) == s
  {
  }

  /** `strip()` takes only the final newline off a text without whitespace
      at its ends. */
  lemma StripFinalNewline(j: string)
    requires j != [] && !IsSpace(j[0]) && !IsSpace(j[|j| - 1])
    ensures Strip(j + "\n") == j
  {
    TrimEndSuffix(j, "\n", IsSpace);
    StripIdentity(j);
    TrimEndSuffix(j, "", IsSpace);
    assert j + "" == j;
  }

  /** `lstrip` removes exactly a leading run of stripped characters. */
  lemma {:induction false} TrimStartPrefix(a: string, b: string, chars: char -> bool)
    requires forall i :: 0 <= i < |a| ==> chars(a[i])
    requires b == [] || !chars(b[0])
    ensures TrimStart(a + b, chars) == b
    decreases |a|
  {
    if a == [] {
      assert a + b == b;
    } else {
      assert (a + b)[1..] == a[1..] + b;
      TrimStartPrefix(a[1..], b, chars);
    }
  }

  /** `strip` removes exactly the padding around a text with no edge characters. */
  lemma TrimPadding(pre: string, s: string, post: string, chars: char -> bool)
    requires forall i :: 0 <= i < |pre| ==> chars(pre[i])
    requires forall i :: 0 <= i < |post| ==> chars(post[i])
    requires s != [] && !chars(s[0]) && !chars(s[|s| - 1])
    ensures Trim(pre + s + post, chars) == s
  {
    TrimEndSuffix(pre + s, post, chars);
    TrimStartPrefix(pre, s, chars);
  }

  // ---------------------------------------------------------------------
  // join / split on one character
  // ---------------------------------------------------------------------

  /** `sep.join(parts)`. */
  function Join(parts: seq<string>, sep: string): (r: string)
    decreases |parts|
  {
    if |parts| == 0 then ""
    else if |parts| == 1 then parts[0]
    else parts[0] + sep + Join(parts[1..], sep)
  }

  /** Joining after one more piece adds the separator and that piece. */
  lemma {:induction false} JoinSnoc(parts: seq<string>, sep: string, last: string)
    requires |parts| >= 1
    ensures Join(parts + [last], sep) == Join(parts, sep) + sep + last
    decreases |parts|
  {
    if |parts| > 1 {
      JoinSnoc(parts[1..], sep, last);
      assert (parts + [last])[1..] == parts[1..] + [last];
    }
  }

  /** A joined list starts with its first piece and ends with its last. */
  lemma {:induction false} JoinEnds(parts: seq<string>, sep: string)
    requires |parts| >= 1
    ensures var j := Join(parts, sep);
            parts[0] <= j && |parts[|parts| - 1]| <= |j| && j[|j| - |parts[|parts| - 1]|..] == parts[|parts| - 1]
    decreases |parts|
  {
    if |parts| > 1 {
      JoinEnds(parts[1..], sep);
      var rest := Join(parts[1..], sep);
      assert Join(parts, sep) == parts[0] + sep + rest;
      assert (parts[0] + sep + rest)[..|parts[0]|] == parts[0];
    }
  }

  /** The first character of a join is the first part's, its last character
      the last part's, when those parts are not empty. */
  lemma JoinEdgeChars(parts: seq<string>, sep: string)
    requires |parts| >= 1 && parts[0] != [] && parts[|parts| - 1] != []
    ensures var j := Join(parts, sep);
            j != [] && j[0] == parts[0][0] && j[|j| - 1] == parts[|parts| - 1][|parts[|parts| - 1]| - 1]
  {
    JoinEnds(parts, sep);
    var j := Join(parts, sep);
    var last := parts[|parts| - 1];
    assert j[0] == parts[0][0];
    assert j[|j| - 1] == j[|j| - |last|..][|last| - 1];
  }

  /** A character found in neither the pieces nor the separator is not in
      their join. */
  lemma {:induction false} JoinExcludes(parts: seq<string>, sep: string, c: char)
    requires c !in sep && forall k :: 0 <= k < |parts| ==> c !in parts[k]
    ensures c !in Join(parts, sep)
    decreases |parts|
  {
    if |parts| > 1 {
      JoinExcludes(parts[1..], sep, c);
    }
  }

  /** `s.split(c)` for a one-character separator: never empty, and no piece
      holds the separator. */
  function Split(s: string, c: char): (r: seq<string>)
    ensures |r| >= 1
    ensures forall i :: 0 <= i < |r| ==> c !in r[i]
    decreases |s|
  {
    if s == [] then [""]
    else if s[0] == c then [""] + Split(s[1..], c)
    else
      var t := Split(s[1..], c);
      [[s[0]] + t[0]] + t[1..]
  }

  /** Joining the pieces of a split with the separator gives the string back. */
  lemma {:induction false} JoinSplit(s: string, c: char)
    ensures Join(Split(s, c), [c]) == s
    decreases |s|
  {
    if s == [] {
    } else if s[0] == c {
      JoinSplit(s[1..], c);
      var t := Split(s[1..], c);
      assert Split(s, c) == [""] + t;
      assert ([""] + t)[1..] == t;
    } else {
      JoinSplit(s[1..], c);
      var t := Split(s[1..], c);
      var r := Split(s, c);
      assert r == [[s[0]] + t[0]] + t[1..];
      if |t| == 1 {
      } else {
        assert r[1..] == t[1..];
        assert Join(t, [c]) == t[0] + [c] + Join(t[1..], [c]);
      }
    }
  }

  /** Splitting a join of separator-free pieces gives the pieces back. */
  lemma {:induction false} SplitJoin(parts: seq<string>, c: char)
    requires |parts| >= 1
    requires forall i :: 0 <= i < |parts| ==> c !in parts[i]
    ensures Split(Join(parts, [c]), c) == parts
    decreases |parts|, |parts[0]|
  {
    if |parts| == 1 {
      SplitNoSep(parts[0], c);
    } else if parts[0] == [] {
      SplitJoin(parts[1..], c);
      assert Join(parts, [c]) == [c] + Join(parts[1..], [c]);
    } else {
      var p0 := parts[0];
      var rest := [p0[1..]] + parts[1..];
      assert rest[1..] == parts[1..];
      assert forall i :: 0 <= i < |rest| ==> c !in rest[i];
      SplitJoin(rest, c);
      assert Join(parts, [c]) == [p0[0]] + Join(rest, [c]);
      assert [p0[0]] + rest[0] == p0;
    }
  }

  lemma {:induction false} SplitNoSep(s: string, c: char)
    requires c !in s
    ensures Split(s, c) == [s]
    decreases |s|
  {
    if s != [] {
      SplitNoSep(s[1..], c);
      assert [s[0]] + s[1..] == s;
    }
  }

  /** A split has one piece exactly when the separator does not occur. */
  lemma {:induction false} SplitOneIff(s: string, c: char)
    ensures |Split(s, c)| == 1 <==> c !in s
    decreases |s|
  {
    if s != [] {
      SplitOneIff(s[1..], c);
      if s[0] != c {
        assert c in s <==> c in s[1..] by {
          assert s == [s[0]] + s[1..];
        }
      }
    }
  }

  /** `s.split(c)[0]`: the text before the first `c` (all of `s` without one). */
  function Before(s: string, c: char): (r: string)
    ensures r <= s && c !in r
    ensures |r| < |s| ==> s[|r|] == c
  {
    if s == [] || s[0] == c then "" else [s[0]] + Before(s[1..], c)
  }

  lemma {:induction false} BeforeIsFirstPiece(s: string, c: char)
    ensures Split(s, c)[0] == Before(s, c)
    decreases |s|
  {
    if s != [] && s[0] != c {
      BeforeIsFirstPiece(s[1..], c);
    }
  }

  /** The first `c` fixes both halves of a one-shot split. */
  lemma SplitOnceAt(s: string, c: char, k: nat)
    requires k < |s| && s[k] == c && c !in s[..k]
    ensures SplitOnce(s, c) == (s[..k], s[k + 1..])
  {
    var r := Before(s, c);
    assert forall i :: 0 <= i < k ==> s[..k][i] == s[i];
    assert |r| <= k;
    assert r == s[..k];
  }

  /** `s.split(c)[-1]`: the text after the last `c` (all of `s` without one). */
  function AfterLast(s: string, c: char): (r: string)
    ensures |r| <= |s| && r == s[|s| - |r|..] && c !in r
    ensures |r| < |s| ==> s[|s| - |r| - 1] == c
    decreases |s|
  {
    if s == [] || s[|s| - 1] == c then "" else AfterLast(s[..|s| - 1], c) + [s[|s| - 1]]
  }

  /** `a` is the last piece of `s` split at `c`: a `c`-free suffix that is
      all of `s` or follows a `c`. */
  predicate IsLastPiece(s: string, c: char, a: string)
  {
    |a| <= |s| && s[|s| - |a|..] == a && c !in a && (|a| < |s| ==> s[|s| - |a| - 1] == c)
  }

  lemma LastPieceUnique(s: string, c: char, a: string, b: string)
    requires IsLastPiece(s, c, a) && IsLastPiece(s, c, b)
    ensures a == b
  {
  }

  lemma {:induction false} SplitLastPiece(s: string, c: char)
    ensures var p := Split(s, c); IsLastPiece(s, c, p[|p| - 1])
    decreases |s|
  {
    if s != [] {
      SplitLastPiece(s[1..], c);
      if s[0] == c {
        LastPieceAfterSep(s, c);
      } else {
        LastPieceAfterChar(s, c);
      }
    }
  }

  lemma LastPieceAfterSep(s: string, c: char)
    requires s != [] && s[0] == c
    requires var t := Split(s[1..], c); IsLastPiece(s[1..], c, t[|t| - 1])
    ensures var p := Split(s, c); IsLastPiece(s, c, p[|p| - 1])
  {
    var t := Split(s[1..], c);
    var p := Split(s, c);
    SplitFirst(s, c);
    assert p == [""] + t;
    assert p[|p| - 1] == t[|t| - 1];
    LastPieceKept(s, c, t[|t| - 1]);
  }

  lemma LastPieceAfterChar(s: string, c: char)
    requires s != [] && s[0] != c
    requires var t := Split(s[1..], c); IsLastPiece(s[1..], c, t[|t| - 1])
    ensures var p := Split(s, c); IsLastPiece(s, c, p[|p| - 1])
  {
    var t := Split(s[1..], c);
    var a := t[|t| - 1];
    var p := Split(s, c);
    SplitFirst(s, c);
    SplitOneIff(s[1..], c);
    assert p == [[s[0]] + t[0]] + t[1..];
    if |t| == 1 {
      LastPieceGrows(s, c, a);
    } else {
      assert p[|p| - 1] == a;
      LastPieceKept(s, c, a);
    }
  }

  /** One unfolding of `Split`. */
  lemma SplitFirst(s: string, c: char)
    requires s != []
    ensures Split(s, c) == if s[0] == c then [""] + Split(s[1..], c)
                           else [[s[0]] + Split(s[1..], c)[0]] + Split(s[1..], c)[1..]
  {
  }

  /** The last piece after the first character stays the last piece when
      that character is `c` or `c` occurs later. */
  lemma LastPieceKept(s: string, c: char, a: string)
    requires s != [] && IsLastPiece(s[1..], c, a)
    requires s[0] == c || c in s[1..]
    ensures IsLastPiece(s, c, a)
  {
    assert s[1..][|s| - 1 - |a|..] == s[|s| - |a|..];
    if |a| == |s| - 1 {
      assert a == s[1..];
    }
  }

  /** Without `c` after the first character, that character joins the
      last piece. */
  lemma LastPieceGrows(s: string, c: char, a: string)
    requires s != [] && s[0] != c && IsLastPiece(s[1..], c, a) && c !in s[1..]
    ensures IsLastPiece(s, c, [s[0]] + a)
  {
    assert a == s[1..];
    assert [s[0]] + s[1..] == s;
  }

  /** `AfterLast` is what `s.split(c)[-1]` yields. */
  lemma AfterLastIsLastPiece(s: string, c: char)
    ensures var p := Split(s, c); p[|p| - 1] == AfterLast(s, c)
  {
    SplitLastPiece(s, c);
    var p := Split(s, c);
    LastPieceUnique(s, c, p[|p| - 1], AfterLast(s, c));
  }

  lemma {:induction false} AfterLastNoSep(s: string, c: char)
    requires c !in s
    ensures AfterLast(s, c) == s
    decreases |s|
  {
    if s != [] {
      AfterLastNoSep(s[..|s| - 1], c);
    }
  }

  /** A separator-free suffix that follows a separator is the text after the last one. */
  lemma {:induction false} AfterLastUnique(s: string, c: char, a: string)
    requires |a| < |s| && s[|s| - |a|..] == a && c !in a && s[|s| - |a| - 1] == c
    ensures AfterLast(s, c) == a
    decreases |a|
  {
    if a == [] {
    } else {
      var s' := s[..|s| - 1];
      assert s'[|s'| - |a[..|a| - 1]|..] == a[..|a| - 1];
      AfterLastUnique(s', c, a[..|a| - 1]);
    }
  }

  /** `s.split(c, 1)` as used with a fallback of '' for the second part. */
  function SplitOnce(s: string, c: char): (r: (string, string))
    ensures r.0 == Before(s, c)
    ensures c in s ==> s == r.0 + [c] + r.1
    ensures c !in s ==> r.1 == ""
  {
    var b := Before(s, c);
    if |b| < |s| then (b, s[|b| + 1..]) else (b, "")
  }

  // ---------------------------------------------------------------------
  // splitlines, whitespace split
  // ---------------------------------------------------------------------

  /** Index of the first character of `s` from `i` on that is in `cs`, or `|s|`. */
  function IndexFrom(s: string, cs: char -> bool, i: nat): (k: nat)
    requires i <= |s|
    ensures i <= k <= |s|
    ensures k < |s| ==> cs(s[k])
    ensures forall j :: i <= j < k ==> !cs(s[j])
    decreases |s| - i
  {
    if i == |s| || cs(s[i]) then i else IndexFrom(s, cs, i + 1)
  }

  /** The first index from `i` on where `cs` holds is `k` when `cs` fails
      everywhere before it. */
  lemma IndexFromIs(s: string, cs: char -> bool, i: nat, k: nat)
    requires i <= k <= |s| && (k < |s| ==> cs(s[k]))
    requires forall j :: i <= j < k ==> !cs(s[j])
    ensures IndexFrom(s, cs, i) == k
  {
  }

  /** `s.splitlines()`: lines without their terminators; "\r\n" is one
      boundary and a final terminator does not open an empty line. */
  function SplitLines(s: string): (r: seq<string>)
    ensures forall i :: 0 <= i < |r| ==> forall j :: 0 <= j < |r[i]| ==> !IsLineBreak(r[i][j])
    ensures s == [] <==> r == []
    decreases |s|
  {
    if s == [] then []
    else
      var k := IndexFrom(s, IsLineBreak, 0);
      if k == |s| then [s]
      else
        var n := if s[k] == '\r' && k + 1 < |s| && s[k + 1] == '\n' then 2 else 1;
        [s[..k]] + SplitLines(s[k + n..])
  }

  /** Lines without line breaks, joined with "\n", split back into themselves. */
  lemma {:induction false} SplitLinesJoin(ls: seq<string>)
    requires forall k :: 0 <= k < |ls| ==> ls[k] != "" && forall j :: 0 <= j < |ls[k]| ==> !IsLineBreak(ls[k][j])
    ensures SplitLines(Join(ls, "\n")) == ls
    decreases |ls|
  {
    if |ls| == 1 {
      var s := ls[0];
      var k := IndexFrom(s, IsLineBreak, 0);
      assert k == |s|;
    } else if |ls| > 1 {
      var first, rest := ls[0], Join(ls[1..], "\n");
      var s := first + "\n" + rest;
      assert Join(ls, "\n") == s;
      var k := |first|;
      assert s[k] == '\n';
      assert forall j :: 0 <= j < k ==> s[j] == first[j];
      IndexFromIs(s, IsLineBreak, 0, k);
      assert s[k + 1..] == rest;
      assert s[..k] == first;
      assert SplitLines(s) == [first] + SplitLines(rest);
      SplitLinesJoin(ls[1..]);
      assert ls == [first] + ls[1..];
    }
  }

  /** The first whitespace-free word at the start of `s` (empty if `s` starts with a space). */
  function WordAt(s: string): (w: string)
    ensures w <= s
    ensures forall j :: 0 <= j < |w| ==> !IsSpace(w[j])
    ensures |w| < |s| ==> IsSpace(s[|w|])
  {
    s[..IndexFrom(s, IsSpace, 0)]
  }

  /** `s.split()` without arguments: the maximal runs of non-whitespace. */
  function Words(s: string): (r: seq<string>)
    ensures forall i :: 0 <= i < |r| ==> r[i] != [] && forall j :: 0 <= j < |r[i]| ==> !IsSpace(r[i][j])
    decreases |s|
  {
    if s == [] then []
    else if IsSpace(s[0]) then Words(s[1..])
    else
      var w := WordAt(s);
      [w] + Words(s[|w|..])
  }

  /** `s.split()` has a first element exactly when `s` is not blank, and that
      element is the first word after the leading whitespace. */
  lemma {:induction false} WordsNonEmpty(s: string)
    ensures Words(s) != [] <==> !IsBlank(s)
    ensures Words(s) != [] ==> Words(s)[0] == WordAt(TrimStart(s, IsSpace))
    decreases |s|
  {
    if s != [] && IsSpace(s[0]) {
      WordsNonEmpty(s[1..]);
      assert IsBlank(s) <==> IsBlank(s[1..]) by {
        assert forall i :: 1 <= i < |s| ==> s[i] == s[1..][i - 1];
      }
    }
  }

  /** One non-empty run of non-whitespace characters, as `split()` yields. */
  predicate Word(s: string)
  {
    s != [] && forall j :: 0 <= j < |s| ==> !IsSpace(s[j])
  }

  /** A single word splits into itself. */
  lemma WordsOfWord(w: string)
    requires Word(w)
    ensures Words(w) == [w]
  {
    assert IndexFrom(w, IsSpace, 0) == |w|;
    assert WordAt(w) == w;
    assert w[|w|..] == [];
  }

  /** Two words around one whitespace character split into the two words. */
  lemma WordsTwo(a: string, sp: char, b: string)
    requires a != [] && forall j :: 0 <= j < |a| ==> !IsSpace(a[j])
    requires b != [] && forall j :: 0 <= j < |b| ==> !IsSpace(b[j])
    requires IsSpace(sp)
    ensures Words(a + [sp] + b) == [a, b]
  {
    var rest := [sp] + b;
    WordAtFront(a, rest);
    assert a + [sp] + b == a + rest;
    DropFront(a, rest);
    WordsOfWord(b);
    assert rest[1..] == b;
  }

  /** The first word of a word followed by whitespace is that word. */
  lemma WordAtFront(a: string, rest: string)
    requires a != [] && forall j :: 0 <= j < |a| ==> !IsSpace(a[j])
    requires rest != [] && IsSpace(rest[0])
    ensures WordAt(a + rest) == a
  {
    var s := a + rest;
    assert forall j :: 0 <= j < |a| ==> s[j] == a[j];
    assert s[|a|] == rest[0];
    IndexFromIs(s, IsSpace, 0, |a|);
    assert s[..|a|] == a;
  }

  /** The pieces on either side of one separator element. */
  lemma AroundSeparator<T>(a: seq<T>, sep: T, b: seq<T>)
    ensures (a + [sep] + b)[|a|] == sep
    ensures (a + [sep] + b)[..|a|] == a
    ensures (a + [sep] + b)[|a| + 1..] == b
    ensures forall x :: x in a + [sep] + b <==> x in a || x == sep || x in b
  {
  }

  /** Dropping a prefix leaves the rest. */
  lemma DropFront<T>(a: seq<T>, rest: seq<T>)
    ensures (a + rest)[|a|..] == rest
  {
  }

  // ---------------------------------------------------------------------
  // prefixes, suffixes, substrings, replacement
  // ---------------------------------------------------------------------

  /** `s.endswith(suffix)`. */
  predicate EndsWith(s: string, suffix: string) {
    |suffix| <= |s| && s[|s| - |suffix|..] == suffix
  }

  /** `sub in s`. */
  predicate Contains(s: string, sub: string)
    decreases |s|
  {
    sub <= s || (s != [] && Contains(s[1..], sub))
  }

  lemma {:induction false} ContainsAt(s: string, sub: string, i: nat)
    requires i + |sub| <= |s| && s[i..i + |sub|] == sub
    ensures Contains(s, sub)
    decreases i
  {
    if i > 0 {
      assert s[1..][i - 1..i - 1 + |sub|] == sub;
      ContainsAt(s[1..], sub, i - 1);
    }
  }

  /** `s.replace(pat, rep)` for a non-empty `pat`: leftmost, non-overlapping. */
  function ReplaceAll(s: string, pat: string, rep: string): (r: string)
    requires pat != []
    decreases |s|
  {
    if |s| < |pat| then s
    else if pat <= s then rep + ReplaceAll(s[|pat|..], pat, rep)
    else [s[0]] + ReplaceAll(s[1..], pat, rep)
  }

  /** `s.replace('', rep)`: `rep` before every character and at the end. */
  function InterleaveEmpty(s: string, rep: string): (r: string)
    ensures |r| == |s| + (|s| + 1) * |rep|
  {
    if s == [] then rep else rep + [s[0]] + InterleaveEmpty(s[1..], rep)
  }

  /** `s.replace(pat, rep)` for any `pat`. */
  function Replace(s: string, pat: string, rep: string): string
  {
    if pat == [] then InterleaveEmpty(s, rep) else ReplaceAll(s, pat, rep)
  }

  /** Text that cannot start an occurrence passes through unchanged. */
  lemma {:induction false} ReplaceAfter(a: string, b: string, pat: string, rep: string)
    requires pat != [] && pat[0] !in a
    ensures ReplaceAll(a + b, pat, rep) == a + ReplaceAll(b, pat, rep)
    decreases |a|
  {
    if a != [] {
      assert (a + b)[0] == a[0] && (a + b)[1..] == a[1..] + b;
      if |a + b| < |pat| {
        assert ReplaceAll(b, pat, rep) == b;
      } else {
        assert !(pat <= a + b);
        assert ReplaceAll(a + b, pat, rep) == [a[0]] + ReplaceAll(a[1..] + b, pat, rep);
        ReplaceAfter(a[1..], b, pat, rep);
        assert [a[0]] + a[1..] == a;
      }
    } else {
      assert a + b == b;
    }
  }

  /** Replacing a string that does not occur changes nothing. */
  lemma {:induction false} ReplaceAbsent(s: string, pat: string, rep: string)
    requires pat != [] && !Contains(s, pat)
    ensures ReplaceAll(s, pat, rep) == s
    decreases |s|
  {
    if |s| >= |pat| {
      ReplaceAbsent(s[1..], pat, rep);
    }
  }

  /** After replacing, no occurrence of `pat` is left when `rep` cannot create one. */
  lemma {:induction false} ReplaceCharRemovesAll(s: string, c: char, d: char)
    requires c != d
    ensures c !in ReplaceAll(s, [c], [d])
    ensures |ReplaceAll(s, [c], [d])| == |s|
    decreases |s|
  {
    if s != [] {
      ReplaceCharRemovesAll(s[1..], c, d);
    }
  }

  /** Replacing one character by another acts character by character. */
  lemma {:induction false} ReplaceCharAt(s: string, c: char, d: char, i: nat)
    requires i < |s|
    ensures |ReplaceAll(s, [c], [d])| == |s|
    ensures ReplaceAll(s, [c], [d])[i] == if s[i] == c then d else s[i]
    decreases |s|
  {
    ReplaceCharLength(s, c, d);
    if i > 0 {
      ReplaceCharAt(s[1..], c, d, i - 1);
    }
  }

  lemma {:induction false} ReplaceCharLength(s: string, c: char, d: char)
    ensures |ReplaceAll(s, [c], [d])| == |s|
    decreases |s|
  {
    if s != [] {
      ReplaceCharLength(s[1..], c, d);
    }
  }

  /** `s.rfind(c)`: the index of the last `c`, or -1. */
  function RFind(s: string, c: char): (r: int)
    ensures -1 <= r < |s|
    ensures r >= 0 ==> s[r] == c
    ensures forall j :: r < j < |s| ==> s[j] != c
    decreases |s|
  {
    if s == [] then -1
    else if s[|s| - 1] == c then |s| - 1
    else RFind(s[..|s| - 1], c)
  }

  /** An occurrence with none after it is the one `rfind` reports. */
  lemma RFindAt(s: string, c: char, k: int)
    requires -1 <= k < |s| && (k >= 0 ==> s[k] == c)
    requires forall j :: k < j < |s| ==> s[j] != c
    ensures RFind(s, c) == k
  {
  }

  /** Nothing after the last occurrence is `c`. */
  lemma RFindTail(s: string, c: char)
    ensures c !in s[RFind(s, c) + 1..]
  {
    var r := RFind(s, c);
    var t := s[r + 1..];
    forall i | 0 <= i < |t|
      ensures t[i] != c
    {
      assert t[i] == s[r + 1 + i];
    }
  }

  /** `pat` occurs in `s` starting at index `j`. */
  predicate OccursAt(s: string, pat: string, j: int)
  {
    0 <= j && j + |pat| <= |s| && s[j..j + |pat|] == pat
  }

  /** Start of the rightmost occurrence of `pat` in `s`, if any. */
  function LastIndexOf(s: string, pat: string): (r: Option<nat>)
    ensures r.Some? ==> OccursAt(s, pat, r.value)
    ensures r.Some? ==> forall j :: r.value < j ==> !OccursAt(s, pat, j)
    ensures r.None? ==> forall j :: !OccursAt(s, pat, j)
  {
    LastFrom(s, pat, |s| - |pat|)
  }

  function LastFrom(s: string, pat: string, j: int): (r: Option<nat>)
    requires j <= |s| - |pat|
    ensures r.Some? ==> r.value <= j && OccursAt(s, pat, r.value)
    ensures r.Some? ==> forall k :: r.value < k <= j ==> !OccursAt(s, pat, k)
    ensures r.None? ==> forall k :: k <= j ==> !OccursAt(s, pat, k)
    decreases j + 1
  {
    if j < 0 then None
    else if s[j..j + |pat|] == pat then Some(j)
    else LastFrom(s, pat, j - 1)
  }

  // ---------------------------------------------------------------------
  // case, digits, integers
  // ---------------------------------------------------------------------

  /** `c.lower()` for ASCII letters; other characters are left as they are. */
  function LowerChar(c: char): char
  {
    if 'A' <= c <= 'Z' then (c as int + 32) as char else c
  }

  /** `s.lower()` on ASCII letters. */
  function Lower(s: string): (r: string)
    ensures |r| == |s|
    ensures forall i :: 0 <= i < |s| ==> r[i] == LowerChar(s[i])
  {
    seq(|s|, i requires 0 <= i < |s| => LowerChar(s[i]))
  }

  predicate IsDigit(c: char) { '0' <= c <= '9' }

  /** `s.isdigit()` on ASCII digits. */
  predicate AllDigits(s: string) { |s| > 0 && forall i :: 0 <= i < |s| ==> IsDigit(s[i]) }

  /** Value of a decimal digit string (leading zeros allowed, as `int()` does). */
  function DigitsValue(s: string): (n: nat)
    requires forall i :: 0 <= i < |s| ==> IsDigit(s[i])
    decreases |s|
  {
    if s == [] then 0
    else
      var d := s[|s| - 1];
      assert IsDigit(d);
      DigitsValue(s[..|s| - 1]) * 10 + (d as int - '0' as int)
  }

  /** `str(n)` for a natural number. */
  function NatToString(n: nat): (s: string)
    ensures AllDigits(s)
    ensures |s| > 1 ==> s[0] != '0'
    decreases n
  {
    if n < 10 then [('0' as int + n) as char]
    else NatToString(n / 10) + [('0' as int + n % 10) as char]
  }

  /** `str(n)` for any integer. */
  function IntToString(n: int): string
  {
    if n < 0 then "-" + NatToString(-n) else NatToString(n)
  }

  lemma {:induction false} NatToStringValue(n: nat)
    ensures DigitsValue(NatToString(n)) == n
    decreases n
  {
    if n >= 10 {
      NatToStringValue(n / 10);
      var s := NatToString(n);
      assert s[..|s| - 1] == NatToString(n / 10);
    }
  }

  /** Decimal rendering has no line breaks, spaces or other separators. */
  lemma DigitsHaveNo(s: string, c: char)
    requires AllDigits(s) && !IsDigit(c)
    ensures c !in s
  {
  }

  /** `int(s)`: optional surrounding whitespace, an optional sign and one or
      more ASCII digits. */
  function ParseInt(s: string): (r: Option<int>)
  {
    var t := Strip(s);
    if t == [] then None
    else if (t[0] == '-' || t[0] == '+') && AllDigits(t[1..]) then
      var v: int := DigitsValue(t[1..]);
      Some(if t[0] == '-' then -v else v)
    else if AllDigits(t) then Some(DigitsValue(t))
    else None
  }

  /** `int(str(n)) == n`. */
  lemma ParseIntToString(n: int)
    ensures ParseInt(IntToString(n)) == Some(n)
  {
    if n < 0 {
      ParseNegative(n);
    } else {
      ParseNatural(n);
    }
  }

  /** The digits of a natural number parse back to it. */
  lemma ParseNatural(n: int)
    requires n >= 0
    ensures ParseInt(IntToString(n)) == Some(n)
  {
    var d := NatToString(n);
    assert IntToString(n) == d;
    NatToStringValue(n);
    DigitNotSpace(d[0]);
    DigitNotSpace(d[|d| - 1]);
    StripIdentity(d);
  }

  /** A minus sign before the digits of a positive number parses back to
      its negation. */
  lemma ParseNegative(n: int)
    requires n < 0
    ensures ParseInt(IntToString(n)) == Some(n)
  {
    var m: nat := -n;
    var d := NatToString(m);
    var s := IntToString(n);
    assert s == "-" + d;
    NatToStringValue(m);
    assert s[1..] == d;
    assert s[|s| - 1] == d[|d| - 1];
    DigitNotSpace(d[|d| - 1]);
    ParseMinusDigits(s);
  }

  /** A minus sign followed by digits, with nothing around it, parses to the
      negated value of the digits. */
  lemma ParseMinusDigits(s: string)
    requires |s| >= 2 && s[0] == '-' && AllDigits(s[1..]) && !IsSpace(s[|s| - 1])
    ensures ParseInt(s) == Some(-(DigitsValue(s[1..]) as int))
  {
    StripIdentity(s);
    var t := Strip(s);
    assert t[0] == '-' && t[1..] == s[1..];
  }

  lemma DigitNotSpace(c: char)
    requires IsDigit(c)
    ensures !IsSpace(c)
  {
  }

  // ---------------------------------------------------------------------
  // ordering
  // ---------------------------------------------------------------------

  /** Python's `a <= b` on strings: lexicographic by code point. */
  predicate StrLe(a: string, b: string)
    decreases |a|
  {
    a == [] || (b != [] && (a[0] < b[0] || (a[0] == b[0] && StrLe(a[1..], b[1..]))))
  }

  lemma {:induction false} StrLeTotal(a: string, b: string)
    ensures StrLe(a, b) || StrLe(b, a)
    decreases |a|
  {
    if a != [] && b != [] && a[0] == b[0] {
      StrLeTotal(a[1..], b[1..]);
    }
  }

  lemma {:induction false} StrLeTrans(a: string, b: string, c: string)
    requires StrLe(a, b) && StrLe(b, c)
    ensures StrLe(a, c)
    decreases |a|
  {
    if a != [] && b != [] && c != [] && a[0] == b[0] && b[0] == c[0] {
      StrLeTrans(a[1..], b[1..], c[1..]);
    }
  }

  lemma {:induction false} StrLeAntisym(a: string, b: string)
    requires StrLe(a, b) && StrLe(b, a)
    ensures a == b
    decreases |a|
  {
    if a != [] {
      StrLeAntisym(a[1..], b[1..]);
      assert a == [a[0]] + a[1..];
      assert b == [b[0]] + b[1..];
    }
  }

  // ---------------------------------------------------------------------
  // list comprehension with a condition
  // ---------------------------------------------------------------------

  /** The elements of `xs` that satisfy `keep`, in order. */
  function Keep<T(!new)>(xs: seq<T>, keep: T -> bool): (r: seq<T>)
    ensures |r| <= |xs|
    ensures forall x :: x in r <==> x in xs && keep(x)
  {
    if xs == [] then []
    else Keep(xs[..|xs| - 1], keep) + (if keep(xs[|xs| - 1]) then [xs[|xs| - 1]] else [])
  }

  /** The prefix of full length is the whole list. */
  lemma TakeAll<T>(s: seq<T>)
    ensures s[..|s|] == s
  {
  }

  /** A non-empty list is its front followed by its last element. */
  lemma FrontLast<T>(s: seq<T>)
    requires s != []
    ensures s == s[..|s| - 1] + [s[|s| - 1]]
  {
  }

  /** One more element of a prefix. */
  lemma TakeOneMore<T>(s: seq<T>, i: nat)
    requires i < |s|
    ensures s[..i + 1] == s[..i] + [s[i]]
  {
  }

  lemma {:induction false} KeepAppend<T(!new)>(xs: seq<T>, ys: seq<T>, keep: T -> bool)
    ensures Keep(xs + ys, keep) == Keep(xs, keep) + Keep(ys, keep)
    decreases |ys|
  {
    if ys == [] {
      assert xs + ys == xs;
    } else {
      var last := ys[|ys| - 1];
      assert (xs + ys)[..|xs + ys| - 1] == xs + ys[..|ys| - 1];
      KeepAppend(xs, ys[..|ys| - 1], keep);
    }
  }

  /** Filtering a list grown by one element. */
  lemma KeepSnoc<T(!new)>(xs: seq<T>, x: T, keep: T -> bool)
    ensures Keep(xs + [x], keep) == Keep(xs, keep) + (if keep(x) then [x] else [])
  {
    assert (xs + [x])[..|xs|] == xs;
  }

  lemma KeepOne<T(!new)>(x: T, keep: T -> bool)
    ensures Keep([x], keep) == if keep(x) then [x] else []
  {
    KeepSnoc([], x, keep);
    assert [] + [x] == [x];
  }

  /** A filter every element passes keeps the whole list. */
  lemma {:induction false} KeepAll<T(!new)>(xs: seq<T>, keep: T -> bool)
    requires forall k :: 0 <= k < |xs| ==> keep(xs[k])
    ensures Keep(xs, keep) == xs
    decreases |xs|
  {
    if xs != [] {
      KeepAll(xs[..|xs| - 1], keep);
      FrontLast(xs);
    }
  }

  lemma {:induction false} KeepComplement<T(!new)>(xs: seq<T>, p: T -> bool, q: T -> bool)
    requires forall x :: q(x) == !p(x)
    ensures |Keep(xs, p)| + |Keep(xs, q)| == |xs|
    decreases |xs|
  {
    if xs != [] {
      KeepComplement(xs[..|xs| - 1], p, q);
    }
  }
}
