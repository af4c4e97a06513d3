/** The numeric re-prompt loop several scripts share: read a line, convert it
    with `int()`, accept it when it lies in a range, otherwise ask again.
    Console input is the finite sequence of lines the user types; when those
    run out without an accepted line the model reports `None`. */
module Menu {
  import opened Strings

  /** The line converts to an integer in `lo..hi`. */
  predicate Accepts(answer: string, lo: int, hi: int)
  {
    var n := ParseInt(answer);
    n.Some? && lo <= n.value <= hi
  }

  /** Position of the first accepted line, if any. */
  function FirstAccepted(answers: seq<string>, lo: int, hi: int): (r: Option<nat>)
    ensures r.Some? ==> r.value < |answers|
  {
    FirstAcceptedFrom(answers, 0, lo, hi)
  }

  function FirstAcceptedFrom(answers: seq<string>, i: nat, lo: int, hi: int): (r: Option<nat>)
    requires i <= |answers|
    ensures r.Some? ==> i <= r.value < |answers|
    decreases |answers| - i
  {
    if i == |answers| then None
    else if Accepts(answers[i], lo, hi) then Some(i)
    else FirstAcceptedFrom(answers, i + 1, lo, hi)
  }

  /** A line the search from `i` stops at is accepted. */
  lemma {:induction false} FirstAcceptedFromAccepts(answers: seq<string>, i: nat, lo: int, hi: int)
    requires i <= |answers|
    ensures FirstAcceptedFrom(answers, i, lo, hi).Some? ==>
      Accepts(answers[FirstAcceptedFrom(answers, i, lo, hi).value], lo, hi)
    decreases |answers| - i
  {
    if i < |answers| && !Accepts(answers[i], lo, hi) {
      FirstAcceptedFromAccepts(answers, i + 1, lo, hi);
    }
  }

  /** The search from `i` passes over rejected lines only, and finds
      nothing only when every line from `i` on is rejected. */
  lemma {:induction false} FirstAcceptedFromRejects(answers: seq<string>, i: nat, lo: int, hi: int)
    requires i <= |answers|
    ensures var end := match FirstAcceptedFrom(answers, i, lo, hi) case None => |answers| case Some(j) => j;
      forall k :: i <= k < end ==> !Accepts(answers[k], lo, hi)
    decreases |answers| - i
  {
    if i < |answers| && !Accepts(answers[i], lo, hi) {
      FirstAcceptedFromRejects(answers, i + 1, lo, hi);
    }
  }

  /** The search from `i` finds the first accepted line at or after `i`. */
  lemma FirstAcceptedFromIsFirst(answers: seq<string>, i: nat, lo: int, hi: int)
    requires i <= |answers|
    ensures var r := FirstAcceptedFrom(answers, i, lo, hi);
      && (r.Some? ==> Accepts(answers[r.value], lo, hi))
      && (r.Some? ==> forall k :: i <= k < r.value ==> !Accepts(answers[k], lo, hi))
      && (r.None? ==> forall k :: i <= k < |answers| ==> !Accepts(answers[k], lo, hi))
  {
    FirstAcceptedFromAccepts(answers, i, lo, hi);
    FirstAcceptedFromRejects(answers, i, lo, hi);
  }

  /** The answer taken is the first acceptable line: every earlier line is
      rejected, and with no answer taken every line is rejected. */
  lemma FirstAcceptedIsFirst(answers: seq<string>, lo: int, hi: int)
    ensures var r := FirstAccepted(answers, lo, hi);
      && (r.Some? ==> r.value < |answers| && Accepts(answers[r.value], lo, hi))
      && (r.Some? ==> forall k :: 0 <= k < r.value ==> !Accepts(answers[k], lo, hi))
      && (r.None? ==> forall k :: 0 <= k < |answers| ==> !Accepts(answers[k], lo, hi))
  {
    FirstAcceptedFromIsFirst(answers, 0, lo, hi);
  }

  /** The value the loop returns for these lines, if it returns. */
  function Selection(answers: seq<string>, lo: int, hi: int): (r: Option<int>)
    ensures r.Some? ==> lo <= r.value <= hi
    ensures r.Some? <==> FirstAccepted(answers, lo, hi).Some?
  {
    match FirstAccepted(answers, lo, hi)
    case None => None
    case Some(k) =>
      FirstAcceptedIsFirst(answers, lo, hi);
      ParseInt(answers[k])
  }

  /** There is a selection exactly when some typed line is acceptable. */
  lemma SelectionExists(answers: seq<string>, lo: int, hi: int)
    ensures Selection(answers, lo, hi).Some? <==> exists k :: 0 <= k < |answers| && Accepts(answers[k], lo, hi)
  {
    FirstAcceptedIsFirst(answers, lo, hi);
  }

  /** The lines left after the accepted one: where the next prompt reads. */
  function After(answers: seq<string>, lo: int, hi: int): (r: seq<string>)
    requires FirstAccepted(answers, lo, hi).Some?
    ensures |r| < |answers|
  {
    answers[FirstAccepted(answers, lo, hi).value + 1..]
  }

  /** The lines after the accepted one are the tail of the lines. */
  lemma AfterSuffix(answers: seq<string>, lo: int, hi: int)
    requires FirstAccepted(answers, lo, hi).Some?
    ensures After(answers, lo, hi) == answers[|answers| - |After(answers, lo, hi)|..]
  {
  }

  /** The first accepted line is determined by where it sits. */
  lemma FirstAcceptedAt(answers: seq<string>, lo: int, hi: int, k: nat)
    requires k < |answers| && Accepts(answers[k], lo, hi)
    requires forall j :: 0 <= j < k ==> !Accepts(answers[j], lo, hi)
    ensures FirstAccepted(answers, lo, hi) == Some(k)
    ensures Selection(answers, lo, hi) == ParseInt(answers[k])
  {
    FirstAcceptedIsFirst(answers, lo, hi);
  }

  /** With no accepted line there is no selection. */
  lemma NoneAccepted(answers: seq<string>, lo: int, hi: int)
    requires forall k :: 0 <= k < |answers| ==> !Accepts(answers[k], lo, hi)
    ensures FirstAccepted(answers, lo, hi).None? && Selection(answers, lo, hi).None?
  {
    FirstAcceptedIsFirst(answers, lo, hi);
  }

  /** The loop itself: lines are consumed one at a time until one is accepted.
      `consumed` counts the lines read. */
  method ReadInRange(answers: seq<string>, lo: int, hi: int) returns (choice: Option<int>, consumed: nat)
    ensures consumed <= |answers|
    ensures choice == Selection(answers, lo, hi)
    ensures choice.Some? ==> consumed == FirstAccepted(answers, lo, hi).value + 1
    ensures choice.None? ==> consumed == |answers|
  {
    consumed := 0;
    choice := None;
    while consumed < |answers|
      invariant consumed <= |answers|
      invariant forall k :: 0 <= k < consumed ==> !Accepts(answers[k], lo, hi)
    {
      if Accepts(answers[consumed], lo, hi) {
        FirstAcceptedAt(answers, lo, hi, consumed);
        choice := ParseInt(answers[consumed]);
        consumed := consumed + 1;
        return;
      }
      consumed := consumed + 1;
    }
    NoneAccepted(answers, lo, hi);
  }
}
