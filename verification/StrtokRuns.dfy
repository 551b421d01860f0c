/** Sequences of strtok calls: what they return, what they keep, what they overwrite. */
module StrtokRuns {
  import opened Bytes
  import opened CStrings
  import opened Cpu
  import opened Tokens
  import opened Tokenizer

  /**
   * One call from a saved position, for any delimiters: it returns a position at or
   * behind the saved one or NULL, and overwrites nothing but the delimiter, at q, that
   * ends a token; the string from the new position on is the rest of the string.
   */
  lemma CallStep(m: Memory, tok: nat, delims: seq<byte>, o: Outcome) returns (q: nat)
    requires tok != NULL && Terminated(m, tok) && o == Tokenize(m, tok, delims)
    ensures delims == [] || o.res == NULL ==> o == Outcome(m, NULL, NULL)
    ensures o.tok == NULL ==> o.m == m
    ensures o.tok != NULL ==> o.tok == q + 1 && tok <= o.res < q < EndOf(m, tok)
    ensures o.tok != NULL ==> m[q] in delims && m[q] != 0 && o.m == m[q := 0]
    ensures o.tok != NULL ==> Terminated(o.m, o.tok) && EndOf(o.m, o.tok) == EndOf(m, tok)
    ensures o.tok != NULL ==> Len(o.m, o.tok) < Len(m, tok)
  {
    var p := SkipDelimiters(m, tok, delims);
    q := FindDelimiter(m, p, delims);
    if delims != [] {
      TokenStart(m, tok, delims, p, o);
      if m[p] != 0 {
        TokenEnd(m, p, delims, q);
        if q < EndOf(m, p) {
          DelimiterFound(m, p, delims, q);
          RestStays(m, tok, q, o.tok);
        }
      }
    }
  }

  /** Overwriting a byte of a string leaves what comes behind it a string. */
  lemma RestStays(m: Memory, tok: nat, q: nat, rest: nat)
    requires Terminated(m, tok) && tok <= q < EndOf(m, tok) && rest == q + 1
    ensures Terminated(m[q := 0], rest) && EndOf(m[q := 0], rest) == EndOf(m, tok)
  {
    LenIs(m[q := 0], rest, EndOf(m, tok) - rest);
  }

  lemma DelimiterFound(m: Memory, p: nat, delims: seq<byte>, q: nat)
    requires Terminated(m, p) && q == FindDelimiter(m, p, delims) && q < EndOf(m, p)
    ensures m[q] in delims && m[q] != 0
  {
    ByteOfString(m, p, q - p, q);
  }

  /** A run of strtok(NULL, ct) calls can be made from here. */
  predicate Ready(m: Memory, tok: nat, cts: seq<nat>) {
    && (tok != NULL ==> Terminated(m, tok))
    && forall i :: 0 <= i < |cts| ==> Terminated(m, cts[i])
  }

  lemma CallKeepsReady(m: Memory, tok: nat, cts: seq<nat>)
    requires cts != [] && Ready(m, tok, cts)
    ensures Callable(m, tok, NULL, cts[0])
    ensures var o := Call(m, tok, NULL, cts[0]); Ready(o.m, o.tok, cts[1..])
  {
    if tok != NULL {
      var o := Call(m, tok, NULL, cts[0]);
      var q := CallStep(m, tok, Str(m, cts[0]), o);
      forall i | 0 <= i < |cts[1..]| ensures Terminated(o.m, cts[1..][i]) {
        if o.tok != NULL { StillTerminated(m, q, cts[i + 1]); }
      }
    }
  }

  /** The outcomes of the calls strtok(NULL, ct) for the given delimiter strings. */
  function Continue(m: Memory, tok: nat, cts: seq<nat>): (os: seq<Outcome>)
    requires Ready(m, tok, cts)
    ensures |os| == |cts|
    decreases |cts|
  {
    if cts == [] then [] else
      CallKeepsReady(m, tok, cts);
      var o := Call(m, tok, NULL, cts[0]);
      [o] + Continue(o.m, o.tok, cts[1..])
  }

  lemma ContinueFirst(m: Memory, tok: nat, cts: seq<nat>)
    requires cts != [] && Ready(m, tok, cts)
    ensures Callable(m, tok, NULL, cts[0]) && Continue(m, tok, cts)[0] == Call(m, tok, NULL, cts[0])
  {
    CallKeepsReady(m, tok, cts);
  }

  lemma ContinueLater(m: Memory, tok: nat, cts: seq<nat>, i: nat, i': nat)
    requires Ready(m, tok, cts) && i == i' + 1 < |cts|
    ensures Callable(m, tok, NULL, cts[0])
    ensures var o := Call(m, tok, NULL, cts[0]);
            Ready(o.m, o.tok, cts[1..]) && Continue(m, tok, cts)[i] == Continue(o.m, o.tok, cts[1..])[i']
  {
    CallKeepsReady(m, tok, cts);
  }

  /**
   * What holds between calls that tokenize the string at in m0: only bytes of the
   * string were overwritten, with NUL; the saved position is NULL, the start, or just
   * past an overwritten byte, and from it on nothing has changed.
   */
  predicate Consistent(m0: Memory, at: nat, m: Memory, tok: nat)
    requires Terminated(m0, at)
  {
    && |m| == |m0|
    && (forall k :: 0 <= k < |m| ==> m[k] == m0[k] || (m[k] == 0 && at <= k < EndOf(m0, at)))
    && (tok != NULL ==>
          && at <= tok <= EndOf(m0, at)
          && (tok > at ==> m[tok - 1] == 0 && m0[tok - 1] != 0)
          && forall k :: tok <= k < |m| ==> m[k] == m0[k])
  }

  lemma RestOfString(m0: Memory, at: nat, m: Memory, tok: nat)
    requires Terminated(m0, at) && Consistent(m0, at, m, tok) && tok != NULL
    ensures Terminated(m, tok) && EndOf(m, tok) == EndOf(m0, at)
    ensures Str(m, tok) == Str(m0, at)[tok - at..]
  {
    Suffix(m0, at, tok - at);
    SameString(m0, m, tok);
  }

  lemma NulWritten(m0: Memory, at: nat, m: Memory, tok: nat, q: nat, tok': nat)
    requires Terminated(m0, at) && Consistent(m0, at, m, tok) && tok != NULL
    requires tok <= q < EndOf(m0, at) && m[q] != 0 && tok' == q + 1
    ensures Consistent(m0, at, m[q := 0], tok')
  {
    assert m[q] == m0[q];
  }

  lemma StepIsConsistent(m0: Memory, at: nat, m: Memory, tok: nat, delims: seq<byte>)
    requires Terminated(m0, at) && Consistent(m0, at, m, tok) && tok != NULL
    ensures Terminated(m, tok)
    ensures var o := Tokenize(m, tok, delims); Consistent(m0, at, o.m, o.tok) && (o.tok != NULL ==> at < o.tok)
  {
    RestOfString(m0, at, m, tok);
    var o := Tokenize(m, tok, delims);
    var q := CallStep(m, tok, delims, o);
    if o.tok != NULL {
      NulWritten(m0, at, m, tok, q, o.tok);
    }
  }

  lemma CallIsConsistent(m0: Memory, at: nat, m: Memory, tok: nat, ct: nat)
    requires Terminated(m0, at) && Consistent(m0, at, m, tok) && Callable(m, tok, NULL, ct)
    ensures var o := Call(m, tok, NULL, ct); Consistent(m0, at, o.m, o.tok) && (o.tok != NULL ==> at < o.tok)
  {
    if tok != NULL { StepIsConsistent(m0, at, m, tok, Str(m, ct)); }
  }

  /** Whatever delimiter strings are passed, every state of the run is consistent. */
  lemma {:induction false} RunIsConsistent(m0: Memory, at: nat, m: Memory, tok: nat, cts: seq<nat>, i: nat)
    requires Terminated(m0, at) && Consistent(m0, at, m, tok) && Ready(m, tok, cts) && i < |cts|
    ensures var o := Continue(m, tok, cts)[i]; Consistent(m0, at, o.m, o.tok) && (o.tok != NULL ==> at < o.tok)
    decreases i
  {
    ContinueFirst(m, tok, cts);
    CallIsConsistent(m0, at, m, tok, cts[0]);
    if i == 0 {
    } else {
      var o := Call(m, tok, NULL, cts[0]);
      var i' := i - 1;
      ContinueLater(m, tok, cts, i, i');
      RunIsConsistent(m0, at, o.m, o.tok, cts[1..], i');
    }
  }

  /**
   * The run that starts with strtok(at, ...) in m, for delimiter strings that may change
   * at each call. After any call the saved position, unless NULL, is behind the start.
   */
  lemma StrtokRunInvariant(m: Memory, at: nat, cts: seq<nat>, i: nat)
    requires at != NULL && Terminated(m, at) && i < |cts|
    requires forall k :: 0 <= k < |cts| ==> Terminated(m, cts[k])
    ensures Ready(m, at, cts)
    ensures var o := Continue(m, at, cts)[i];
            && Consistent(m, at, o.m, o.tok)
            && (o.tok != NULL ==> at < o.tok && o.m[o.tok - 1] == 0 && m[o.tok - 1] != 0)
  {
    RunIsConsistent(m, at, m, at, cts, i);
  }

  lemma CallKeepsByte(m: Memory, tok: nat, ct: nat, o: Outcome, k: nat)
    requires (tok != NULL ==> Terminated(m, tok)) && Terminated(m, ct) && o == Call(m, tok, NULL, ct)
    requires k < |m| && (tok == NULL || k < tok)
    ensures |o.m| == |m| && o.m[k] == m[k] && (o.tok == NULL || k < o.tok)
  {
    if tok != NULL { var q := CallStep(m, tok, Str(m, ct), o); }
  }

  /** Bytes below the saved position, and all bytes once it is NULL, stay what they are. */
  lemma {:induction false} ConsumedPartStays(m: Memory, tok: nat, cts: seq<nat>, i: nat, k: nat)
    requires Ready(m, tok, cts) && i < |cts| && k < |m| && (tok == NULL || k < tok)
    ensures var o := Continue(m, tok, cts)[i]; |o.m| == |m| && o.m[k] == m[k]
    decreases i
  {
    ContinueFirst(m, tok, cts);
    var o := Call(m, tok, NULL, cts[0]);
    CallKeepsByte(m, tok, cts[0], o, k);
    if i == 0 {
    } else {
      var i' := i - 1;
      ContinueLater(m, tok, cts, i, i');
      ConsumedPartStays(o.m, o.tok, cts[1..], i', k);
    }
  }

  /** A call with a string does what a continuing call does when that string is the saved position. */
  lemma FirstCall(m: Memory, tok: nat, s: nat, ct: nat)
    requires s != NULL && Terminated(m, s) && Terminated(m, ct)
    ensures Callable(m, tok, s, ct) && Callable(m, s, NULL, ct)
    ensures Call(m, tok, s, ct) == Call(m, s, NULL, ct)
  {
  }

  /** The NUL-free text s, read from at, is in m from position i on, and terminated. */
  predicate Tail(m: Memory, at: nat, s: seq<byte>, i: nat) {
    && i <= |s| && at + |s| < |m| && m[at + |s|] == 0
    && forall k :: at + i <= k < at + |s| ==> m[k] == s[k - at] && m[k] != 0
  }

  lemma TailIsString(m: Memory, at: nat, s: seq<byte>, i: nat)
    requires Tail(m, at, s, i)
    ensures Terminated(m, at + i) && EndOf(m, at + i) == at + |s| && Str(m, at + i) == s[i..]
  {
    LenIs(m, at + i, |s| - i);
  }

  lemma {:induction false} SpanIsNext(s: seq<byte>, delims: seq<byte>, i: nat, inside: bool)
    requires i <= |s|
    ensures i + SpanLen(s[i..], delims, inside) == Next(s, delims, i, !inside)
    decreases |s| - i
  {
    if i == |s| || (s[i] in delims) != inside {
    } else {
      assert s[i..][1..] == s[i + 1..];
      SpanIsNext(s, delims, i + 1, inside);
    }
  }

  lemma SkipIsNext(m: Memory, at: nat, s: seq<byte>, i: nat, tok: nat, delims: seq<byte>)
    requires Tail(m, at, s, i) && tok == at + i
    ensures Terminated(m, tok) && SkipDelimiters(m, tok, delims) == at + Next(s, delims, i, false)
  {
    TailIsString(m, at, s, i);
    SpanIsNext(s, delims, i, true);
  }

  lemma FindIsNext(m: Memory, at: nat, s: seq<byte>, p: nat, i: nat, delims: seq<byte>)
    requires Tail(m, at, s, i) && p == at + i
    ensures Terminated(m, p) && EndOf(m, p) == at + |s| && FindDelimiter(m, p, delims) == at + Next(s, delims, i, true)
  {
    TailIsString(m, at, s, i);
    SpanIsNext(s, delims, i, false);
  }

  /** The outcome o of a call in m that finds the run r of the text s at at. */
  predicate Delivers(m: Memory, at: nat, s: seq<byte>, r: Run, o: Outcome) {
    && o.res == (if r.start < |s| then at + r.start else NULL)
    && o.tok == (if r.end < |s| then at + r.end + 1 else NULL)
    && |o.m| == |m|
    && forall k :: 0 <= k < |m| ==> o.m[k] == if r.end < |s| && k == at + r.end then 0 else m[k]
  }

  /** One call delivers the first run of the rest of the text. */
  lemma TokenizeIsFirstRun(m: Memory, at: nat, s: seq<byte>, i: nat, tok: nat, delims: seq<byte>)
    requires Tail(m, at, s, i) && tok == at + i && delims != []
    ensures Terminated(m, tok)
    ensures Delivers(m, at, s, FirstRun(s, delims, i), Tokenize(m, tok, delims))
  {
    SkipIsNext(m, at, s, i, tok, delims);
    var r, p := FirstRun(s, delims, i), SkipDelimiters(m, tok, delims);
    FindIsNext(m, at, s, p, r.start, delims);
  }

  /**
   * For an empty set of delimiters the rest of the text is one token, but the call finds
   * it only when there is nothing left: it delivers the first run exactly in these cases.
   */
  lemma FirstRunUnlessSetEmpty(m: Memory, at: nat, s: seq<byte>, i: nat, tok: nat, delims: seq<byte>)
    requires at != NULL && Tail(m, at, s, i) && tok == at + i
    ensures Terminated(m, tok)
    ensures Delivers(m, at, s, FirstRun(s, delims, i), Tokenize(m, tok, delims)) <==> delims != [] || i == |s|
  {
    TailIsString(m, at, s, i);
    if delims != [] {
      TokenizeIsFirstRun(m, at, s, i, tok, delims);
    } else {
      assert Tokenize(m, tok, delims) == Outcome(m, NULL, NULL);
      assert FirstRun(s, delims, i).start == i;
    }
  }

  /** The token, at p, that a call delivers is a string. */
  lemma AfterRun(m: Memory, at: nat, s: seq<byte>, i: nat, p: nat, r: Run, o: Outcome)
    requires Tail(m, at, s, i) && i <= r.start < r.end <= |s| && Delivers(m, at, s, r, o) && p == at + r.start
    ensures Reads(o.m, p, s[r.start..r.end]) && EndOf(o.m, p) == at + r.end
  {
    LenIs(o.m, p, r.end - r.start);
  }

  /** Every call of the run is given the same non-empty delimiters, which lie outside the text. */
  predicate SameDelimiters(m: Memory, at: nat, s: seq<byte>, cts: seq<nat>, ct: nat, delims: seq<byte>) {
    && (forall i :: 0 <= i < |cts| ==> cts[i] == ct)
    && delims != [] && Reads(m, ct, delims)
    && (ct + |delims| < at || at + |s| < ct)
  }

  lemma SameDelimitersReady(m: Memory, at: nat, s: seq<byte>, i: nat, tok: nat, cts: seq<nat>, ct: nat,
                            delims: seq<byte>)
    requires tok == at + i && Tail(m, at, s, i) && SameDelimiters(m, at, s, cts, ct, delims)
    ensures Ready(m, tok, cts)
  {
    TailIsString(m, at, s, i);
  }

  /** The first call of such a run. */
  lemma FirstOfRun(m: Memory, at: nat, s: seq<byte>, i: nat, tok: nat, cts: seq<nat>, ct: nat, delims: seq<byte>)
    requires at != NULL && cts != [] && tok == at + i && Tail(m, at, s, i) && SameDelimiters(m, at, s, cts, ct, delims)
    ensures Callable(m, tok, NULL, cts[0])
    ensures Delivers(m, at, s, FirstRun(s, delims, i), Call(m, tok, NULL, cts[0]))
  {
    TokenizeIsFirstRun(m, at, s, i, tok, delims);
  }

  /** What remains of the run after a call is such a run again. */
  lemma RestOfRun(m: Memory, at: nat, s: seq<byte>, cts: seq<nat>, ct: nat, delims: seq<byte>, r: Run, o: Outcome)
    requires cts != [] && SameDelimiters(m, at, s, cts, ct, delims) && Delivers(m, at, s, r, o)
    ensures SameDelimiters(o.m, at, s, cts[1..], ct, delims)
  {
    SameString(m, o.m, ct);
  }

  lemma {:induction false} NullStays(m: Memory, cts: seq<nat>, q: nat)
    requires Ready(m, NULL, cts) && q < |cts|
    ensures Continue(m, NULL, cts)[q] == Outcome(m, NULL, NULL)
    decreases q
  {
    ContinueFirst(m, NULL, cts);
    if q == 0 {
    } else {
      var q' := q - 1;
      ContinueLater(m, NULL, cts, q, q');
      NullStays(m, cts[1..], q');
    }
  }

  /** What call number q is to return: the start of run number q, or NULL when there are fewer. */
  function Expected(s: seq<byte>, delims: seq<byte>, at: nat, i: nat, q: nat): nat
    requires i <= |s|
  {
    var runs := Runs(s, delims, i);
    if q < |runs| then at + runs[q].start else NULL
  }

  lemma ExpectedOne(s: seq<byte>, delims: seq<byte>, at: nat, i: nat)
    requires i <= |s|
    ensures var r := FirstRun(s, delims, i);
            Expected(s, delims, at, i, 0) == if r.start < |s| then at + r.start else NULL
  {
  }

  lemma ExpectedLater(s: seq<byte>, delims: seq<byte>, at: nat, i: nat, q: nat, i': nat, q': nat)
    requires i <= |s| && q == q' + 1 && i' == FirstRun(s, delims, i).end + 1
    ensures Expected(s, delims, at, i, q) == if i' <= |s| then Expected(s, delims, at, i', q') else NULL
  {
  }

  lemma FirstResult(m: Memory, at: nat, s: seq<byte>, i: nat, tok: nat, cts: seq<nat>, ct: nat, delims: seq<byte>)
    requires at != NULL && cts != [] && tok == at + i && Tail(m, at, s, i) && SameDelimiters(m, at, s, cts, ct, delims)
    ensures Ready(m, tok, cts) && Continue(m, tok, cts)[0].res == Expected(s, delims, at, i, 0)
  {
    SameDelimitersReady(m, at, s, i, tok, cts, ct, delims);
    FirstOfRun(m, at, s, i, tok, cts, ct, delims);
    ExpectedOne(s, delims, at, i);
    ContinueFirst(m, tok, cts);
  }

  lemma {:induction false} ResultAt(m: Memory, at: nat, s: seq<byte>, i: nat, tok: nat, cts: seq<nat>, ct: nat,
                                    delims: seq<byte>, q: nat)
    requires at != NULL && q < |cts| && tok == at + i && Tail(m, at, s, i) && SameDelimiters(m, at, s, cts, ct, delims)
    ensures Ready(m, tok, cts) && Continue(m, tok, cts)[q].res == Expected(s, delims, at, i, q)
    decreases q
  {
    SameDelimitersReady(m, at, s, i, tok, cts, ct, delims);
    if q == 0 {
      FirstResult(m, at, s, i, tok, cts, ct, delims);
    } else {
      FirstOfRun(m, at, s, i, tok, cts, ct, delims);
      var q' := q - 1;
      ContinueLater(m, tok, cts, q, q');
      LaterResult(m, at, s, i, cts, ct, delims, q, q', Call(m, tok, NULL, cts[0]));
    }
  }

  /** The result of a later call, seen from the state after the first. */
  lemma {:induction false} LaterResult(m: Memory, at: nat, s: seq<byte>, i: nat, cts: seq<nat>, ct: nat,
                                       delims: seq<byte>, q: nat, q': nat, o: Outcome)
    requires at != NULL && q == q' + 1 < |cts| && Tail(m, at, s, i) && SameDelimiters(m, at, s, cts, ct, delims)
    requires Delivers(m, at, s, FirstRun(s, delims, i), o)
    ensures Ready(o.m, o.tok, cts[1..])
    ensures Continue(o.m, o.tok, cts[1..])[q'].res == Expected(s, delims, at, i, q)
    decreases q, 0
  {
    var r := FirstRun(s, delims, i);
    var i' := r.end + 1;
    RestOfRun(m, at, s, cts, ct, delims, r, o);
    ExpectedLater(s, delims, at, i, q, i', q');
    if r.end < |s| {
      ResultAt(o.m, at, s, i', o.tok, cts[1..], ct, delims, q');
    } else {
      NullStays(o.m, cts[1..], q');
    }
  }

  /** The token at p that a call with outcome o has delivered survives all calls that follow. */
  lemma DeliveredTokenStays(m: Memory, at: nat, s: seq<byte>, i: nat, p: nat, r: Run, o: Outcome, rest: seq<nat>,
                            z: nat)
    requires Tail(m, at, s, i) && i <= r.start < r.end <= |s| && Delivers(m, at, s, r, o) && p == at + r.start
    requires Ready(o.m, o.tok, rest) && z < |rest|
    ensures Reads(Continue(o.m, o.tok, rest)[z].m, p, s[r.start..r.end])
  {
    AfterRun(m, at, s, i, p, r, o);
    ConsumedStringStays(o.m, o.tok, rest, z, p);
  }

  /** The token delivered by the first call, at p, still reads the same after every later call. */
  lemma FirstTokenStays(m: Memory, at: nat, s: seq<byte>, i: nat, tok: nat, cts: seq<nat>, ct: nat,
                        delims: seq<byte>, z: nat, p: nat)
    requires at != NULL && z < |cts| && tok == at + i && Tail(m, at, s, i)
    requires SameDelimiters(m, at, s, cts, ct, delims)
    requires FirstRun(s, delims, i).start < |s| && p == at + FirstRun(s, delims, i).start
    ensures Ready(m, tok, cts)
    ensures var r := FirstRun(s, delims, i); Reads(Continue(m, tok, cts)[z].m, p, s[r.start..r.end])
  {
    SameDelimitersReady(m, at, s, i, tok, cts, ct, delims);
    FirstOfRun(m, at, s, i, tok, cts, ct, delims);
    var r, o := FirstRun(s, delims, i), Call(m, tok, NULL, cts[0]);
    if z == 0 {
      ContinueFirst(m, tok, cts);
      AfterRun(m, at, s, i, p, r, o);
    } else {
      var z' := z - 1;
      ContinueLater(m, tok, cts, z, z');
      DeliveredTokenStays(m, at, s, i, p, r, o, cts[1..], z');
    }
  }

  /** Every delivered token t, at p, still reads the same after every later call of the run. */
  lemma {:induction false} TokenStays(m: Memory, at: nat, s: seq<byte>, i: nat, tok: nat, cts: seq<nat>, ct: nat,
                                      delims: seq<byte>, q: nat, z: nat, t: Run, p: nat)
    requires at != NULL && q <= z < |cts| && tok == at + i && Tail(m, at, s, i)
    requires SameDelimiters(m, at, s, cts, ct, delims)
    requires q < |Runs(s, delims, i)| && t == Runs(s, delims, i)[q] && p == at + t.start
    ensures t.start <= t.end <= |s| && Ready(m, tok, cts)
    ensures Reads(Continue(m, tok, cts)[z].m, p, s[t.start..t.end])
    decreases q
  {
    SameDelimitersReady(m, at, s, i, tok, cts, ct, delims);
    if q == 0 {
      RunFirst(s, delims, i);
      FirstTokenStays(m, at, s, i, tok, cts, ct, delims, z, p);
    } else {
      var z' := z - 1;
      FirstOfRun(m, at, s, i, tok, cts, ct, delims);
      ContinueLater(m, tok, cts, z, z');
      LaterTokenStays(m, at, s, i, cts, ct, delims, q, z', t, p, Call(m, tok, NULL, cts[0]));
    }
  }

  lemma {:induction false} LaterTokenStays(m: Memory, at: nat, s: seq<byte>, i: nat, cts: seq<nat>, ct: nat,
                                           delims: seq<byte>, q: nat, z': nat, t: Run, p: nat, o: Outcome)
    requires at != NULL && 0 < q <= z' + 1 < |cts| && Tail(m, at, s, i) && SameDelimiters(m, at, s, cts, ct, delims)
    requires q < |Runs(s, delims, i)| && t == Runs(s, delims, i)[q] && p == at + t.start
    requires Delivers(m, at, s, FirstRun(s, delims, i), o)
    ensures t.start <= t.end <= |s| && Ready(o.m, o.tok, cts[1..])
    ensures Reads(Continue(o.m, o.tok, cts[1..])[z'].m, p, s[t.start..t.end])
    decreases q, 0
  {
    var r := FirstRun(s, delims, i);
    var i', q' := r.end + 1, q - 1;
    RunLater(s, delims, i, q, i', q');
    RestOfRun(m, at, s, cts, ct, delims, r, o);
    TokenStays(o.m, at, s, i', o.tok, cts[1..], ct, delims, q', z', t, p);
  }

  /** A string that ends before the saved position stays what it is. */
  lemma ConsumedStringStays(m: Memory, tok: nat, cts: seq<nat>, z: nat, p: nat)
    requires Ready(m, tok, cts) && z < |cts| && Terminated(m, p) && (tok == NULL || EndOf(m, p) < tok)
    ensures Reads(Continue(m, tok, cts)[z].m, p, Str(m, p))
  {
    var m' := Continue(m, tok, cts)[z].m;
    ConsumedPartStays(m, tok, cts, z, p);
    forall k | p <= k <= EndOf(m, p) ensures m'[k] == m[k] {
      ConsumedPartStays(m, tok, cts, z, k);
    }
    SameString(m, m', p);
  }

  /** Two strings, terminators included, have no byte in common. */
  predicate Apart(m: Memory, s: nat, ct: nat) {
    Terminated(m, s) && Terminated(m, ct) && (EndOf(m, ct) < s || EndOf(m, s) < ct)
  }

  /** Every call of the run is given the delimiters ct. */
  predicate AllAre(cts: seq<nat>, ct: nat) {
    forall i :: 0 <= i < |cts| ==> cts[i] == ct
  }

  /** strtok(s, ct), whatever was saved before, is the first call of the run that s starts. */
  lemma StrtokStartsTheRun(m: Memory, tok: nat, s: nat, ct: nat, cts: seq<nat>)
    requires s != NULL && Apart(m, s, ct) && cts != [] && AllAre(cts, ct)
    ensures Callable(m, tok, s, ct) && Ready(m, s, cts)
    ensures Call(m, tok, s, ct) == Continue(m, s, cts)[0]
  {
    FirstCall(m, tok, s, ct);
    ContinueFirst(m, s, cts);
  }

  lemma StringIsTail(m: Memory, s: nat, ct: nat, cts: seq<nat>)
    requires Apart(m, s, ct) && Len(m, ct) > 0 && AllAre(cts, ct)
    ensures Tail(m, s, Str(m, s), 0) && SameDelimiters(m, s, Str(m, s), cts, ct, Str(m, ct))
  {
  }

  /**
   * strtok(s, ct) and then strtok(NULL, ct) again and again: call number q returns the
   * start of maximal run number q of non-delimiters, or NULL when there are fewer runs.
   */
  lemma StrtokFindsTheRuns(m: Memory, s: nat, ct: nat, cts: seq<nat>, q: nat)
    requires s != NULL && Apart(m, s, ct) && Len(m, ct) > 0 && q < |cts| && AllAre(cts, ct)
    ensures Ready(m, s, cts)
    ensures Continue(m, s, cts)[q].res == Expected(Str(m, s), Str(m, ct), s, 0, q)
  {
    StringIsTail(m, s, ct, cts);
    ResultAt(m, s, Str(m, s), 0, s, cts, ct, Str(m, ct), q);
  }

  /** The pointer p reads as this run of the text. */
  predicate ReadsRun(m: Memory, p: nat, text: seq<byte>, t: Run) {
    t.start <= t.end <= |text| && Reads(m, p, text[t.start..t.end])
  }

  /** The pointer that call number q returned still reads as its token after every later call z. */
  lemma StrtokTokensStay(m: Memory, s: nat, ct: nat, cts: seq<nat>, q: nat, z: nat)
    requires s != NULL && Apart(m, s, ct) && Len(m, ct) > 0 && q <= z < |cts| && AllAre(cts, ct)
    requires q < |Runs(Str(m, s), Str(m, ct), 0)|
    ensures Ready(m, s, cts)
    ensures var os, t := Continue(m, s, cts), Runs(Str(m, s), Str(m, ct), 0)[q];
            ReadsRun(os[z].m, os[q].res, Str(m, s), t)
  {
    var text, delims := Str(m, s), Str(m, ct);
    var p := Expected(text, delims, s, 0, q);
    StringIsTail(m, s, ct, cts);
    TokenStays(m, s, text, 0, s, cts, ct, delims, q, z, Runs(text, delims, 0)[q], p);
    StrtokFindsTheRuns(m, s, ct, cts, q);
  }

  /** The results, memory and saved position that these outcomes leave. */
  predicate Observed(os: seq<Outcome>, results: seq<nat>, m: Memory, tok: nat) {
    && os != [] && |results| == |os|
    && (forall q :: 0 <= q < |os| ==> results[q] == os[q].res)
    && os[|os| - 1].m == m && os[|os| - 1].tok == tok
  }

  /** Of the outcomes os those in done have been observed; the calls for rest are still to be made. */
  predicate Underway(os: seq<Outcome>, done: seq<Outcome>, results: seq<nat>, m: Memory, tok: nat, rest: seq<nat>) {
    Ready(m, tok, rest) && os == done + Continue(m, tok, rest) && Observed(done, results, m, tok)
  }

  lemma ContinueStep(m: Memory, tok: nat, cts: seq<nat>, o: Outcome)
    requires cts != [] && Ready(m, tok, cts) && Callable(m, tok, NULL, cts[0]) && o == Call(m, tok, NULL, cts[0])
    ensures Ready(o.m, o.tok, cts[1..]) && Continue(m, tok, cts) == [o] + Continue(o.m, o.tok, cts[1..])
  {
    CallKeepsReady(m, tok, cts);
  }

  lemma Shift(os: seq<Outcome>, done: seq<Outcome>, o: Outcome, later: seq<Outcome>)
    requires os == done + ([o] + later)
    ensures os == (done + [o]) + later
  {
  }

  lemma ObservedNext(done: seq<Outcome>, results: seq<nat>, m: Memory, tok: nat, o: Outcome)
    requires Observed(done, results, m, tok)
    ensures Observed(done + [o], results + [o.res], o.m, o.tok)
  {
  }

  lemma UnderwayFirst(m: Memory, s: nat, cts: seq<nat>, o: Outcome)
    requires cts != [] && Ready(m, s, cts) && Callable(m, s, NULL, cts[0]) && o == Call(m, s, NULL, cts[0])
    ensures Underway(Continue(m, s, cts), [o], [o.res], o.m, o.tok, cts[1..])
  {
    ContinueStep(m, s, cts, o);
  }

  lemma UnderwayNext(os: seq<Outcome>, done: seq<Outcome>, results: seq<nat>, m: Memory, tok: nat, rest: seq<nat>,
                     o: Outcome)
    requires rest != [] && Underway(os, done, results, m, tok, rest)
    requires Callable(m, tok, NULL, rest[0]) && o == Call(m, tok, NULL, rest[0])
    ensures Underway(os, done + [o], results + [o.res], o.m, o.tok, rest[1..])
  {
    ContinueStep(m, tok, rest, o);
    Shift(os, done, o, Continue(o.m, o.tok, rest[1..]));
    ObservedNext(done, results, m, tok, o);
  }

  /** The next of these calls, on the machine. */
  method StrtokNext(cpu: Machine, g: Globals, ct: nat, ghost os: seq<Outcome>, ghost done: seq<Outcome>,
                    ghost results: seq<nat>, ghost rest: seq<nat>)
    returns (res: nat, ghost o: Outcome)
    requires cpu.Fits() && rest != [] && rest[0] == ct
    requires Underway(os, done, results, cpu.mem[..], g.strtok, rest)
    modifies cpu, g, cpu.mem
    ensures Underway(os, done + [o], results + [res], cpu.mem[..], g.strtok, rest[1..])
  {
    ghost var m, tok := cpu.mem[..], g.strtok;
    CallKeepsReady(m, tok, rest);
    o := Call(m, tok, NULL, ct);
    UnderwayNext(os, done, results, m, tok, rest, o);
    res := Strtok(cpu, g, NULL, ct);
  }

  method StrtokFirst(cpu: Machine, g: Globals, s: word, ct: nat, ghost cts: seq<nat>)
    returns (res: nat, ghost o: Outcome)
    requires cpu.Fits() && s != NULL && cts != [] && cts[0] == ct && Ready(cpu.mem[..], s, cts)
    modifies cpu, g, cpu.mem
    ensures Underway(Continue(old(cpu.mem[..]), s, cts), [o], [res], cpu.mem[..], g.strtok, cts[1..])
  {
    ghost var m := cpu.mem[..];
    FirstCall(m, g.strtok, s, ct);
    o := Call(m, s, NULL, ct);
    UnderwayFirst(m, s, cts, o);
    res := Strtok(cpu, g, s, ct);
  }

  /** strtok(s, cts[0]) and then strtok(NULL, ct) for the other delimiter strings, on the machine. */
  method StrtokAll(cpu: Machine, g: Globals, s: word, cts: seq<nat>) returns (results: seq<nat>)
    requires cpu.Fits() && s != NULL && cts != [] && Ready(cpu.mem[..], s, cts)
    modifies cpu, g, cpu.mem
    ensures Observed(Continue(old(cpu.mem[..]), s, cts), results, cpu.mem[..], g.strtok)
  {
    ghost var os := Continue(cpu.mem[..], s, cts);
    var res;
    ghost var o;
    res, o := StrtokFirst(cpu, g, s, cts[0], cts);
    results := [res];
    ghost var done := [o];
    var rest := cts[1..];
    while rest != []
      invariant Underway(os, done, results, cpu.mem[..], g.strtok, rest)
      decreases |rest|
    {
      res, o := StrtokNext(cpu, g, rest[0], os, done, results, rest);
      results, done, rest := results + [res], done + [o], rest[1..];
    }
    assert os == done;
  }

  lemma ObservedAt(os: seq<Outcome>, results: seq<nat>, m: Memory, tok: nat, q: nat, z: nat)
    requires Observed(os, results, m, tok) && q <= z == |os| - 1
    ensures results[q] == os[q].res && m == os[z].m
  {
  }

  /** What is to be seen of result number q behind the last call, number z. */
  lemma ObservedRun(m: Memory, s: nat, ct: nat, cts: seq<nat>, results: seq<nat>, m': Memory, tok: nat, q: nat, z: nat)
    requires s != NULL && Apart(m, s, ct) && Len(m, ct) > 0 && q <= z == |cts| - 1 && AllAre(cts, ct)
    requires Ready(m, s, cts) && Observed(Continue(m, s, cts), results, m', tok)
    ensures var text, delims := Str(m, s), Str(m, ct);
            && results[q] == Expected(text, delims, s, 0, q)
            && (q < |Runs(text, delims, 0)| ==> ReadsRun(m', results[q], text, Runs(text, delims, 0)[q]))
  {
    ObservedAt(Continue(m, s, cts), results, m', tok, q, z);
    StrtokFindsTheRuns(m, s, ct, cts, q);
    if q < |Runs(Str(m, s), Str(m, ct), 0)| { StrtokTokensStay(m, s, ct, cts, q, z); }
  }

  /**
   * The loop that strtok is for: the results are the starts of the maximal runs and then
   * NULL, and at the end every one of them reads as its token.
   */
  method StrtokLoop(cpu: Machine, g: Globals, s: word, ct: word, n: nat) returns (results: seq<nat>)
    requires cpu.Fits() && s != NULL && Apart(cpu.mem[..], s, ct) && Len(cpu.mem[..], ct) > 0 && n > 0
    modifies cpu, g, cpu.mem
    ensures |results| == n
    ensures var text, delims := Str(old(cpu.mem[..]), s), Str(old(cpu.mem[..]), ct);
            forall q :: 0 <= q < n ==>
              && results[q] == Expected(text, delims, s, 0, q)
              && (q < |Runs(text, delims, 0)| ==> ReadsRun(cpu.mem[..], results[q], text, Runs(text, delims, 0)[q]))
  {
    ghost var m := cpu.mem[..];
    ghost var text, delims := Str(m, s), Str(m, ct);
    var cts: seq<nat> := seq(n, _ => ct);
    results := StrtokAll(cpu, g, s, cts);
    ghost var m', tok := cpu.mem[..], g.strtok;
    forall q | 0 <= q < n
      ensures results[q] == Expected(text, delims, s, 0, q)
      ensures q < |Runs(text, delims, 0)| ==> ReadsRun(m', results[q], text, Runs(text, delims, 0)[q])
    {
      ObservedRun(m, s, ct, cts, results, m', tok, q, n - 1);
    }
  }
}
