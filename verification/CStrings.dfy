/**
 * What the routines of include/string.h are specified against: C strings read
 * out of a memory image, block writes, spans, first occurrences and orders.
 */
module CStrings {
  import opened Bytes

  type Memory = seq<byte>

  /** A NUL-terminated string starts at p. */
  predicate Terminated(m: Memory, p: int) {
    0 <= p < |m| && 0 in m[p..]
  }

  function Len(m: Memory, p: int): (n: nat)
    requires Terminated(m, p)
    ensures p + n < |m| && m[p + n] == 0
    ensures forall k :: p <= k < p + n ==> m[k] != 0
    decreases |m| - p
  {
    if m[p] == 0 then 0 else
      assert m[p..] == [m[p]] + m[p + 1..];
      1 + Len(m, p + 1)
  }

  /** Where the terminator of the string at p is. */
  function EndOf(m: Memory, p: int): (e: nat)
    requires Terminated(m, p)
    ensures p <= e < |m| && m[e] == 0
  {
    p + Len(m, p)
  }

  /** The string at p, without its terminator. */
  function Str(m: Memory, p: int): (s: seq<byte>)
    requires Terminated(m, p)
    ensures |s| == Len(m, p)
    ensures forall k :: 0 <= k < |s| ==> s[k] == m[p + k] && s[k] != 0
  {
    m[p..p + Len(m, p)]
  }

  /** The string at p is terminated and reads text. */
  predicate Reads(m: Memory, p: int, text: seq<byte>) {
    Terminated(m, p) && Str(m, p) == text
  }

  /** The string at p with its terminator. */
  function Zstr(m: Memory, p: int): (s: seq<byte>)
    requires Terminated(m, p)
  {
    Str(m, p) + [0]
  }

  lemma LenIs(m: Memory, p: int, n: nat)
    requires 0 <= p && p + n < |m| && m[p + n] == 0
    requires forall k :: p <= k < p + n ==> m[k] != 0
    ensures Terminated(m, p) && Len(m, p) == n
  {
    assert m[p..][n] == 0;
    assert m[p + Len(m, p)] == 0;
  }

  /** The byte at q, k bytes into the string at p. */
  lemma ByteOfString(m: Memory, p: nat, k: nat, q: nat)
    requires Terminated(m, p) && k <= Len(m, p) && q == p + k
    ensures q < |m| && (m[q] == 0 <==> k == Len(m, p))
    ensures k < Len(m, p) ==> Str(m, p)[k] == m[q]
  {
  }

  /** At most c bytes from p can be read before a terminator or the count stops the reader. */
  predicate Readable(m: Memory, p: int, c: nat) {
    0 <= p <= |m| && (p + c <= |m| || 0 in m[p..])
  }

  /** The length of the string at p cut off after c bytes. */
  function CutLen(m: Memory, p: int, c: nat): (n: nat)
    requires Readable(m, p, c)
    ensures n <= c && p + n <= |m|
    ensures forall k :: p <= k < p + n ==> m[k] != 0
    ensures n < c ==> p + n < |m| && m[p + n] == 0
    decreases c
  {
    if c == 0 || m[p] == 0 then 0 else
      assert m[p..] == [m[p]] + m[p + 1..];
      1 + CutLen(m, p + 1, c - 1)
  }

  /** The string at p cut off after c bytes. */
  function Cut(m: Memory, p: int, c: nat): (s: seq<byte>)
    requires Readable(m, p, c)
    ensures |s| == CutLen(m, p, c)
    ensures forall k :: 0 <= k < |s| ==> s[k] == m[p + k] && s[k] != 0
  {
    m[p..p + CutLen(m, p, c)]
  }

  lemma CutLenIs(m: Memory, p: int, c: nat, n: nat)
    requires Readable(m, p, c)
    requires n <= c && p + n <= |m|
    requires forall k :: p <= k < p + n ==> m[k] != 0
    requires n < c ==> p + n < |m| && m[p + n] == 0
    ensures CutLen(m, p, c) == n
  {
    assert CutLen(m, p, c) < |m| - p ==> m[p + CutLen(m, p, c)] == 0 || CutLen(m, p, c) == c;
  }

  /** Cutting a terminated string keeps its first c bytes. */
  lemma CutOfString(m: Memory, p: int, c: nat)
    requires Terminated(m, p)
    ensures Readable(m, p, c)
    ensures CutLen(m, p, c) == (if Len(m, p) <= c then Len(m, p) else c)
    ensures Cut(m, p, c) == Str(m, p)[..CutLen(m, p, c)]
  {
    CutLenIs(m, p, c, if Len(m, p) <= c then Len(m, p) else c);
  }

  /** n byte pairs from a and b on agree. */
  predicate Agree(m: Memory, a: nat, b: nat, n: nat)
    requires a + n <= |m| && b + n <= |m|
  {
    m[a..a + n] == m[b..b + n]
  }

  lemma AgreeOneMore(m: Memory, a: nat, b: nat, n: nat)
    requires a + n < |m| && b + n < |m| && Agree(m, a, b, n)
    ensures Agree(m, a, b, n + 1) <==> m[a + n] == m[b + n]
  {
    assert m[a..a + (n + 1)] == m[a..a + n] + [m[a + n]];
    assert m[b..b + (n + 1)] == m[b..b + n] + [m[b + n]];
  }

  lemma AgreeAt(m: Memory, a: nat, b: nat, n: nat, k: nat)
    requires a + n <= |m| && b + n <= |m| && Agree(m, a, b, n) && k < n
    ensures m[a + k] == m[b + k]
  {
    assert m[a..a + n][k] == m[b..b + n][k];
  }

  /** m with the bytes of s written from d on. */
  function Blit(m: Memory, d: int, s: seq<byte>): (r: Memory)
    requires 0 <= d && d + |s| <= |m|
    ensures |r| == |m|
    ensures forall k :: 0 <= k < |m| ==> r[k] == if d <= k < d + |s| then s[k - d] else m[k]
  {
    seq(|m|, k requires 0 <= k < |m| => if d <= k < d + |s| then s[k - d] else m[k])
  }

  lemma BlitAppend(m: Memory, d: int, s: seq<byte>, b: byte)
    requires 0 <= d && d + |s| < |m|
    ensures Blit(m, d, s)[d + |s| := b] == Blit(m, d, s + [b])
  {
  }

  function Fill(n: nat, b: byte): (s: seq<byte>)
    ensures |s| == n && forall k :: 0 <= k < n ==> s[k] == b
  {
    seq(n, _ => b)
  }

  /** n bytes moved one by one from s to d, lowest address first. */
  function MoveUp(m: Memory, s: nat, d: nat, n: nat): (r: Memory)
    requires s + n <= |m| && d + n <= |m|
    ensures |r| == |m|
    decreases n
  {
    if n == 0 then m else MoveUp(m[d := m[s]], s + 1, d + 1, n - 1)
  }

  /** n bytes moved one by one from s to d, highest address first. */
  function MoveDown(m: Memory, s: nat, d: nat, n: nat): (r: Memory)
    requires s + n <= |m| && d + n <= |m|
    ensures |r| == |m|
    decreases n
  {
    if n == 0 then m else MoveDown(m[d + n - 1 := m[s + n - 1]], s, d, n - 1)
  }

  /** A zero byte written anywhere leaves every string terminated. */
  lemma StillTerminated(m: Memory, i: int, p: int)
    requires 0 <= i < |m| && Terminated(m, p)
    ensures Terminated(m[i := 0], p)
  {
    var n := Len(m, p);
    assert m[i := 0][p..][n] == 0;
  }

  /** A string is a matter of its own bytes only. */
  lemma SameString(m: Memory, m': Memory, p: int)
    requires Terminated(m, p) && |m'| == |m|
    requires forall k :: p <= k <= p + Len(m, p) ==> m'[k] == m[k]
    ensures Terminated(m', p) && Str(m', p) == Str(m, p)
  {
    LenIs(m', p, Len(m, p));
  }

  /** The string that starts i bytes into the string at p. */
  lemma Suffix(m: Memory, p: int, i: nat)
    requires Terminated(m, p) && i <= Len(m, p)
    ensures Terminated(m, p + i) && Len(m, p + i) == Len(m, p) - i
    ensures Str(m, p + i) == Str(m, p)[i..]
  {
    LenIs(m, p + i, Len(m, p) - i);
  }

  /** Length of the longest prefix of s whose bytes are all in (or all outside) set. */
  function SpanLen(s: seq<byte>, delims: seq<byte>, inside: bool): (n: nat)
    ensures n <= |s|
    ensures forall k :: 0 <= k < n ==> ((s[k] in delims) == inside)
    ensures n < |s| ==> (s[n] in delims) != inside
  {
    if s == [] || (s[0] in delims) != inside then 0 else 1 + SpanLen(s[1..], delims, inside)
  }

  /** Once n bytes of s belong to the span the next byte decides whether it goes on. */
  lemma SpanGoesOn(s: seq<byte>, delims: seq<byte>, inside: bool, n: nat)
    requires n < |s| && n <= SpanLen(s, delims, inside)
    ensures SpanLen(s, delims, inside) > n <==> (s[n] in delims) == inside
  {
  }

  /** A prefix belongs to the span exactly when all its bytes do: the span is the longest such prefix. */
  lemma SpanIsLongest(s: seq<byte>, delims: seq<byte>, inside: bool, n: nat)
    ensures n <= SpanLen(s, delims, inside) <==> n <= |s| && forall k :: 0 <= k < n ==> ((s[k] in delims) == inside)
  {
    var l := SpanLen(s, delims, inside);
    if l < n <= |s| { assert (s[l] in delims) != inside; }
  }
}
