/** The retry of the split search as the program writes it, `rfind(joiner, l, i - 1)`,
    where a negative window end counts from the end of the string. */
module Findings {
  import opened Grammar

  /** The window end a slice-style bound stands for: an `end` in range is itself, a
      negative `end` counts from the end of the string, and one past either end is clamped
      to it. */
  function SliceEnd(s: string, end: int): (e: nat)
    ensures e <= |s|
  {
    if end < 0 then (if end + |s| < 0 then 0 else end + |s|)
    else if end > |s| then |s| else end
  }

  /** Substring search from the right with slice-style bounds: the highest occurrence that
      lies wholly inside `[start, SliceEnd(s, end))`, or -1 when there is none. */
  function SliceRFind(s: string, sub: string, start: nat, end: int): (i: int)
    requires |sub| > 0
    ensures i == -1 || (start <= i && i + |sub| <= SliceEnd(s, end) && Occurs(s, sub, i))
    ensures forall j :: i < j && start <= j && j + |sub| <= SliceEnd(s, end) ==> !Occurs(s, sub, j)
  {
    Find(s, sub, start, SliceEnd(s, end))
  }

  /** The retry step as written. Away from index 0 it is the retry of the model; only the
      failed candidate at 0 gives the negative window end that the slice rule reinterprets. */
  function NextCandidateAsWritten(s: string, op: string, l: nat, i: nat): (j: int)
    requires |op| > 0
    ensures 1 <= i <= |s| ==> j == NextCandidate(s, op, l, i)
  {
    SliceRFind(s, op, l, i - 1)
  }

  /** When a span starting at index 0 has its operator candidate at 0, the retry window
      `[0, -1)` is read as `[0, |s| - 1)`, which still holds the occurrence at 0: the
      search never reaches "no candidate left". */
  lemma RetryAtZeroNeverEnds(s: string, op: string)
    requires IsOperator(op) && Occurs(s, op, 0) && |s| > |op|
    ensures SliceEnd(s, 0 - 1) == |s| - 1
    ensures NextCandidateAsWritten(s, op, 0, 0) >= 0
  {
    assert 0 + |op| <= SliceEnd(s, 0 - 1);
  }

  /** On "&a" the conjunction rule's first candidate is the `&` at 0, whose left operand is
      empty, and the retry as written returns that same candidate, so the loop repeats
      forever. The retry of the model, `NextCandidate`, finds nothing and the parse fails. */
  lemma LeadingAmpersandRepeats()
    ensures Find("&a", "&", 0, 2) == 0
    ensures Parse("&a", 0, -1).None?
    ensures NextCandidateAsWritten("&a", "&", 0, 0) == 0
    ensures NextCandidate("&a", "&", 0, 0) == -1
  {
    assert "&a"[1..2] == "a" && "&a"[0..1] == "&";
  }

  /** On "&a&b" the conjunction rule on the span "&a" = [0, 1] fails at its candidate 0,
      and the retry as written searches the whole string up to index 3 and returns the `&`
      at 2, which lies outside the span. The loop then parses the left operand [0, 1]
      again, the very span it is working on, so the recursion never bottoms out. The retry
      of the model finds nothing. */
  lemma AmpersandChainLeavesSpan()
    ensures Find("&a&b", "&", 0, 2) == 0
    ensures NextCandidateAsWritten("&a&b", "&", 0, 0) == 2
    ensures !IsCandidate("&a&b", "&", 0, 1, 2)
    ensures NextCandidate("&a&b", "&", 0, 0) == -1
  {
    assert "&a&b"[2..3] == "&" && "&a&b"[0..1] == "&" && "&a&b"[1..2] == "a";
  }
}
