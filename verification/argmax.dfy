/**
 * The arg-max scan shared by the recommendation and the popularity ranking:
 * start with no winner and a best value of 0, walk left to right, and take
 * a position only when its value is STRICTLY greater than the best so far.
 * The first of several equal maxima therefore wins, and a sequence with no
 * positive value has no winner.
 */
module ArgMax {
  import opened Optional

  /** Position `k` is what the scan of `s[..n]` ends on. */
  predicate IsFirstMaxIn(s: seq<int>, n: nat, k: nat)
    requires n <= |s|
  {
    && k < n
    && s[k] > 0
    && (forall j :: 0 <= j < n ==> s[j] <= s[k])
    && (forall j :: 0 <= j < k ==> s[j] < s[k])
  }

  predicate IsFirstMax(s: seq<int>, k: nat)
  {
    IsFirstMaxIn(s, |s|, k)
  }

  /** The best value held by the scan: the winner's value, or 0 with no winner. */
  function Peak(s: seq<int>, best: Option<nat>): int
    requires best.Some? ==> best.value < |s|
  {
    if best.Some? then s[best.value] else 0
  }

  /** The outcome of scanning the first `n` values. */
  function FirstMaxOf(s: seq<int>, n: nat): (best: Option<nat>)
    requires n <= |s|
    ensures best.None? <==> forall j :: 0 <= j < n ==> s[j] <= 0
    ensures best.Some? ==> IsFirstMaxIn(s, n, best.value)
  {
    if n == 0 then None
    else
      var prev := FirstMaxOf(s, n - 1);
      if Peak(s, prev) < s[n - 1] then Some(n - 1) else prev
  }

  function FirstMax(s: seq<int>): Option<nat>
  {
    FirstMaxOf(s, |s|)
  }

  /** The characterisation determines the scan's outcome: at most one position qualifies. */
  lemma FirstMaxIsUnique(s: seq<int>, k: nat)
    requires IsFirstMax(s, k)
    ensures FirstMax(s) == Some(k)
  {
  }

  /** The scan itself, with the state the source keeps: a winner and its value. */
  method Scan(s: seq<int>) returns (best: Option<nat>)
    ensures best == FirstMax(s)
    ensures best.None? <==> forall j :: 0 <= j < |s| ==> s[j] <= 0
    ensures best.Some? ==> IsFirstMax(s, best.value)
  {
    best := None;
    var bestValue := 0;
    var i := 0;
    while i < |s|
      invariant i <= |s|
      invariant best == FirstMaxOf(s, i)
      invariant bestValue == Peak(s, best)
    {
      if s[i] > bestValue {
        best := Some(i);
        bestValue := s[i];
      }
      i := i + 1;
    }
  }
}
