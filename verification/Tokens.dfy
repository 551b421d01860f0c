/** The maximal runs of non-delimiters of a text: what tokenizing is meant to find. */
module Tokens {
  import opened Bytes

  datatype Run = Run(start: nat, end: nat)

  /** s[i..j] has no delimiter, is not empty, and cannot be extended on either side. */
  predicate IsMaximalRun(s: seq<byte>, delims: seq<byte>, i: nat, j: nat) {
    && i < j <= |s|
    && (forall k :: i <= k < j ==> s[k] !in delims)
    && (i == 0 || s[i - 1] in delims)
    && (j == |s| || s[j] in delims)
  }

  /** The first position at or after i whose byte is in (or not in) delims, |s| when there is none. */
  function Next(s: seq<byte>, delims: seq<byte>, i: nat, inside: bool): (k: nat)
    requires i <= |s|
    ensures i <= k <= |s|
    ensures forall j :: i <= j < k ==> (s[j] in delims) != inside
    ensures k < |s| ==> (s[k] in delims) == inside
    decreases |s| - i
  {
    if i == |s| || (s[i] in delims) == inside then i else Next(s, delims, i + 1, inside)
  }

  /** The first run at or after i; it is empty when there is none. */
  function FirstRun(s: seq<byte>, delims: seq<byte>, i: nat): (r: Run)
    requires i <= |s|
    ensures i <= r.start <= r.end <= |s|
    ensures r.start < |s| ==> r.start < r.end
    ensures r.end < |s| ==> s[r.end] in delims
  {
    var b := Next(s, delims, i, false);
    Run(b, Next(s, delims, b, true))
  }

  /** The runs of s at or after i, left to right. */
  function Runs(s: seq<byte>, delims: seq<byte>, i: nat): seq<Run>
    requires i <= |s|
    decreases |s| - i
  {
    var r := FirstRun(s, delims, i);
    if r.start == |s| then []
    else if r.end == |s| then [r]
    else [r] + Runs(s, delims, r.end + 1)
  }

  lemma RunFirst(s: seq<byte>, delims: seq<byte>, i: nat)
    requires i <= |s| && Runs(s, delims, i) != []
    ensures FirstRun(s, delims, i).start < |s| && Runs(s, delims, i)[0] == FirstRun(s, delims, i)
  {
  }

  lemma RunLater(s: seq<byte>, delims: seq<byte>, i: nat, q: nat, i': nat, q': nat)
    requires i <= |s| && q == q' + 1 < |Runs(s, delims, i)| && i' == FirstRun(s, delims, i).end + 1
    ensures i' <= |s| && q' < |Runs(s, delims, i')| && Runs(s, delims, i)[q] == Runs(s, delims, i')[q']
  {
  }

  /** A position where a scan for runs may start. */
  predicate Boundary(s: seq<byte>, delims: seq<byte>, i: nat) {
    i <= |s| && (i == 0 || s[i - 1] in delims)
  }

  lemma FirstRunIsMaximal(s: seq<byte>, delims: seq<byte>, i: nat)
    requires Boundary(s, delims, i) && FirstRun(s, delims, i).start < |s|
    ensures IsMaximalRun(s, delims, FirstRun(s, delims, i).start, FirstRun(s, delims, i).end)
  {
  }

  lemma {:induction false} RunsAreMaximal(s: seq<byte>, delims: seq<byte>, i: nat, p: nat)
    requires Boundary(s, delims, i) && p < |Runs(s, delims, i)|
    ensures var r := Runs(s, delims, i)[p]; i <= r.start && IsMaximalRun(s, delims, r.start, r.end)
    decreases p
  {
    RunFirst(s, delims, i);
    FirstRunIsMaximal(s, delims, i);
    if p == 0 {
    } else {
      var i', p' := FirstRun(s, delims, i).end + 1, p - 1;
      RunLater(s, delims, i, p, i', p');
      RunsAreMaximal(s, delims, i', p');
    }
  }

  /** A maximal run starts with the first run or behind its end. */
  lemma NoRunBetween(s: seq<byte>, delims: seq<byte>, i: nat, a: nat, b: nat)
    requires Boundary(s, delims, i) && i <= a && IsMaximalRun(s, delims, a, b)
    ensures var r := FirstRun(s, delims, i); r == Run(a, b) || r.end < a
  {
    var r := FirstRun(s, delims, i);
    assert s[a] !in delims;
    assert a > 0 ==> s[a - 1] in delims;
  }

  lemma FoundLater(s: seq<byte>, delims: seq<byte>, i: nat, i': nat, p: nat)
    requires i <= |s| && i' == FirstRun(s, delims, i).end + 1 <= |s| && p < |Runs(s, delims, i')|
    ensures p + 1 < |Runs(s, delims, i)| && Runs(s, delims, i)[p + 1] == Runs(s, delims, i')[p]
  {
  }

  lemma {:induction false} MaximalRunsAreFound(s: seq<byte>, delims: seq<byte>, i: nat, a: nat, b: nat)
    returns (p: nat)
    requires Boundary(s, delims, i) && i <= a && IsMaximalRun(s, delims, a, b)
    ensures p < |Runs(s, delims, i)| && Runs(s, delims, i)[p] == Run(a, b)
    decreases |s| - i
  {
    var r := FirstRun(s, delims, i);
    NoRunBetween(s, delims, i, a, b);
    if r == Run(a, b) {
      p := 0;
    } else {
      var i' := r.end + 1;
      var p' := MaximalRunsAreFound(s, delims, i', a, b);
      FoundLater(s, delims, i, i', p');
      p := p' + 1;
    }
  }

  /** The list has exactly the maximal runs. */
  lemma RunsExact(s: seq<byte>, delims: seq<byte>, a: nat, b: nat)
    ensures Run(a, b) in Runs(s, delims, 0) <==> IsMaximalRun(s, delims, a, b)
  {
    if IsMaximalRun(s, delims, a, b) {
      var p := MaximalRunsAreFound(s, delims, 0, a, b);
    }
    if Run(a, b) in Runs(s, delims, 0) {
      var p: nat :| p < |Runs(s, delims, 0)| && Runs(s, delims, 0)[p] == Run(a, b);
      RunsAreMaximal(s, delims, 0, p);
    }
  }

  /** Runs come left to right with at least one delimiter between them. */
  lemma {:induction false} RunsOrdered(s: seq<byte>, delims: seq<byte>, i: nat, p: nat, q: nat)
    requires Boundary(s, delims, i) && p < q < |Runs(s, delims, i)|
    ensures Runs(s, delims, i)[p].end < Runs(s, delims, i)[q].start
    decreases p
  {
    RunFirst(s, delims, i);
    var i', q' := FirstRun(s, delims, i).end + 1, q - 1;
    RunLater(s, delims, i, q, i', q');
    if p == 0 {
      RunsAreMaximal(s, delims, i', q');
    } else {
      RunLater(s, delims, i, p, i', p - 1);
      RunsOrdered(s, delims, i', p - 1, q');
    }
  }
}
