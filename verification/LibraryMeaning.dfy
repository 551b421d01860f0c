/**
 * What the calls of StringLibrary come to, byte by byte: the values that its sequences of
 * calls return and the memory that they leave, with no function of the library's own.
 */
module LibraryMeaning {
  import opened Bytes
  import opened CStrings
  import opened Orders
  import opened StringCompare
  import opened StringSearch
  import opened BlockCopy
  import opened StringCopy
  import opened StringLibrary

  /** A C int as its value. */
  function AsInt(n: nat): int {
    if n < 0x8000_0000 then n else n - 0x1_0000_0000
  }

  /** n bytes at p are not NUL, and then there is one. */
  predicate EndsAt(m: Memory, p: nat, n: nat) {
    p + n < |m| && m[p + n] == 0 && forall k :: p <= k < p + n ==> m[k] != 0
  }

  predicate Small(m: Memory) {
    |m| < WORD_LIMIT
  }

  lemma StrlenMeans(m: Memory, s: word, n: nat)
    requires Small(m) && EndsAt(m, s, n)
    ensures ReadAllowed(CallStrlen(s), m) && ReadResult(CallStrlen(s), m) == AsInt(n)
  {
    LenIs(m, s, n);
  }

  /** The first n bytes of the string of length l at cs are in the set of d bytes at ct, or all of them outside. */
  predicate SpanOf(m: Memory, cs: nat, l: nat, ct: nat, d: nat, n: nat, inside: bool) {
    && EndsAt(m, cs, l) && EndsAt(m, ct, d) && n <= l
    && (forall k :: cs <= k < cs + n ==> ((m[k] in m[ct..ct + d]) == inside))
    && (n < l ==> (m[cs + n] in m[ct..ct + d]) != inside)
  }

  lemma SpanMeans(m: Memory, cs: nat, l: nat, ct: nat, d: nat, n: nat, inside: bool)
    requires SpanOf(m, cs, l, ct, d, n, inside)
    ensures Terminated(m, cs) && Terminated(m, ct) && Len(m, cs) == l
    ensures SpanLen(Str(m, cs), Str(m, ct), inside) == n
  {
    LenIs(m, cs, l);
    LenIs(m, ct, d);
    var s, delims := Str(m, cs), Str(m, ct);
    assert delims == m[ct..ct + d];
    forall k | 0 <= k < n ensures (s[k] in delims) == inside {
      assert s[k] == m[cs + k];
    }
    SpanIsLongest(s, delims, inside, n);
    SpanIsLongest(s, delims, inside, n + 1);
    if n < l { assert s[n] == m[cs + n]; }
  }

  lemma StrspnMeans(m: Memory, cs: word, l: nat, ct: word, d: nat, n: nat)
    requires Small(m) && SpanOf(m, cs, l, ct, d, n, true)
    ensures ReadAllowed(CallStrspn(cs, ct), m) && ReadResult(CallStrspn(cs, ct), m) == AsInt(n)
  {
    SpanMeans(m, cs, l, ct, d, n, true);
  }

  lemma StrcspnMeans(m: Memory, cs: word, l: nat, ct: word, d: nat, n: nat)
    requires Small(m) && SpanOf(m, cs, l, ct, d, n, false)
    ensures ReadAllowed(CallStrcspn(cs, ct), m) && ReadResult(CallStrcspn(cs, ct), m) == AsInt(n)
  {
    SpanMeans(m, cs, l, ct, d, n, false);
  }

  lemma StrpbrkMeans(m: Memory, cs: word, l: nat, ct: word, d: nat, n: nat)
    requires Small(m) && SpanOf(m, cs, l, ct, d, n, false)
    ensures ReadAllowed(CallStrpbrk(cs, ct), m)
    ensures ReadResult(CallStrpbrk(cs, ct), m) == if n < l then cs + n else 0
  {
    SpanMeans(m, cs, l, ct, d, n, false);
  }

  /** The d bytes at ct are also at p. */
  predicate Same(m: Memory, p: nat, ct: nat, d: nat) {
    p + d <= |m| && ct + d <= |m| && m[p..p + d] == m[ct..ct + d]
  }

  lemma SameIsOccurrence(m: Memory, cs: nat, l: nat, ct: nat, d: nat, i: nat, p: nat)
    requires EndsAt(m, cs, l) && EndsAt(m, ct, d) && p == cs + i && i + d <= l
    ensures Terminated(m, cs) && Terminated(m, ct)
    ensures OccursAt(Str(m, cs), Str(m, ct), i) <==> Same(m, p, ct, d)
  {
    LenIs(m, cs, l);
    LenIs(m, ct, d);
    if OccursAt(Str(m, cs), Str(m, ct), i) {
      var a, b := m[p..p + d], m[ct..ct + d];
      forall k | 0 <= k < d ensures a[k] == b[k] {
        OccurrenceAgrees(m, cs, ct, p, i, k);
      }
    }
    if Same(m, p, ct, d) { AgreementOccurs(m, cs, ct, p, i); }
  }

  /** The least position i of the needle. */
  lemma StrstrMeans(m: Memory, cs: word, l: nat, ct: word, d: nat, i: nat, p: nat)
    requires Small(m) && EndsAt(m, cs, l) && EndsAt(m, ct, d) && p == cs + i && i + d <= l && Same(m, p, ct, d)
    requires forall j :: cs <= j < p ==> !Same(m, j, ct, d)
    ensures ReadAllowed(CallStrstr(cs, ct), m) && ReadResult(CallStrstr(cs, ct), m) == p
  {
    SameIsOccurrence(m, cs, l, ct, d, i, p);
    LenIs(m, cs, l);
    LenIs(m, ct, d);
    var r := FirstMatch(Str(m, cs), Str(m, ct), 0);
    assert !(r == -1 || i < r);
    if r < i { SameIsOccurrence(m, cs, l, ct, d, r, cs + r); }
  }

  lemma StrstrMeansNone(m: Memory, cs: word, l: nat, ct: word, d: nat)
    requires Small(m) && EndsAt(m, cs, l) && EndsAt(m, ct, d)
    requires forall j :: cs <= j && j + d <= cs + l ==> !Same(m, j, ct, d)
    ensures ReadAllowed(CallStrstr(cs, ct), m) && ReadResult(CallStrstr(cs, ct), m) == 0
  {
    LenIs(m, cs, l);
    LenIs(m, ct, d);
    var r := FirstMatch(Str(m, cs), Str(m, ct), 0);
    if r >= 0 {
      SameIsOccurrence(m, cs, l, ct, d, r, cs + r);
    }
  }

  /** The first byte c of the string with its terminator is at p. */
  lemma StrchrMeans(m: Memory, s: word, l: nat, c: byte, p: nat)
    requires Small(m) && EndsAt(m, s, l) && s <= p <= s + l && m[p] == c && forall k :: s <= k < p ==> m[k] != c
    ensures ReadAllowed(CallStrchr(s, c), m) && ReadResult(CallStrchr(s, c), m) == p
  {
    LenIs(m, s, l);
    ZstrBytes(m, s, l);
    var z := Zstr(m, s);
    assert z[p - s] == c;
    IndexOfIs(z, c, p - s);
  }

  lemma StrrchrMeans(m: Memory, s: word, l: nat, c: byte, p: nat)
    requires Small(m) && EndsAt(m, s, l) && s <= p <= s + l && m[p] == c && forall k :: p < k <= s + l ==> m[k] != c
    ensures ReadAllowed(CallStrrchr(s, c), m) && ReadResult(CallStrrchr(s, c), m) == p
  {
    LenIs(m, s, l);
    ZstrBytes(m, s, l);
    var z := Zstr(m, s);
    assert z[p - s] == c;
    LastIndexOfIs(z, c, p - s + 1);
  }

  lemma NoCharMeans(m: Memory, s: word, l: nat, c: byte)
    requires Small(m) && EndsAt(m, s, l) && forall k :: s <= k <= s + l ==> m[k] != c
    ensures ReadAllowed(CallStrchr(s, c), m) && ReadResult(CallStrchr(s, c), m) == 0
    ensures ReadAllowed(CallStrrchr(s, c), m) && ReadResult(CallStrrchr(s, c), m) == 0
  {
    LenIs(m, s, l);
    ZstrBytes(m, s, l);
  }

  lemma ZstrBytes(m: Memory, s: nat, l: nat)
    requires EndsAt(m, s, l)
    ensures Terminated(m, s) && |Zstr(m, s)| == l + 1
    ensures forall k :: 0 <= k <= l ==> Zstr(m, s)[k] == m[s + k]
  {
    LenIs(m, s, l);
  }

  lemma MemchrMeans(m: Memory, s: word, c: byte, count: word, p: nat)
    requires Small(m) && s <= p < |m| && m[p] == c && forall k :: s <= k < p ==> m[k] != c
    ensures ReadAllowed(CallMemchr(s, c, count), m)
    ensures ReadResult(CallMemchr(s, c, count), m) == if p < s + count then p else 0
  {
    assert m[s..][p - s] == c;
    IndexOfIs(m[s..], c, p - s);
  }

  lemma NoByteMeans(m: Memory, s: word, c: byte, count: word)
    requires Small(m) && s + count <= |m| && forall k :: s <= k < s + count ==> m[k] != c
    ensures ReadAllowed(CallMemchr(s, c, count), m) && ReadResult(CallMemchr(s, c, count), m) == 0
  {
    var i := IndexOf(m[s..], c);
    assert i < |m[s..]| ==> m[s..][i] == m[s + i];
  }

  /** The value of a char. */
  function Char(b: byte): int {
    if b < 128 then b else b - 256
  }

  /** Two strings whose first k bytes agree, and whose bytes number k differ, terminators included. */
  predicate DifferAt(m: Memory, cs: nat, l: nat, ct: nat, d: nat, k: nat) {
    EndsAt(m, cs, l) && EndsAt(m, ct, d) && k <= l && k <= d && m[cs + k] != m[ct + k] && Same(m, cs, ct, k)
  }

  lemma StrcmpMeans(m: Memory, cs: word, l: nat, ct: word, d: nat, k: nat)
    requires Small(m) && DifferAt(m, cs, l, ct, d, k)
    ensures ReadAllowed(CallStrcmp(cs, ct), m)
    ensures ReadResult(CallStrcmp(cs, ct), m) == if Char(m[cs + k]) < Char(m[ct + k]) then -1 else 1
  {
    ZstrBytes(m, cs, l);
    ZstrBytes(m, ct, d);
    OrderAtDifference(true, Zstr(m, cs), Zstr(m, ct), k);
  }

  lemma StrcmpMeansEqual(m: Memory, cs: word, ct: word, l: nat)
    requires Small(m) && EndsAt(m, cs, l) && EndsAt(m, ct, l) && Same(m, cs, ct, l)
    ensures ReadAllowed(CallStrcmp(cs, ct), m) && ReadResult(CallStrcmp(cs, ct), m) == 0
  {
    ZstrBytes(m, cs, l);
    ZstrBytes(m, ct, l);
    assert Zstr(m, cs) == Zstr(m, ct);
    OrderZeroIffEqual(true, Zstr(m, cs), Zstr(m, ct));
  }

  /** strncmp sees a difference exactly when the count reaches it. */
  lemma StrncmpMeans(m: Memory, cs: word, l: nat, ct: word, d: nat, k: nat, count: word)
    requires Small(m) && DifferAt(m, cs, l, ct, d, k) && count < 0x8000_0000
    ensures ReadAllowed(CallStrncmp(cs, ct, count), m)
    ensures ReadResult(CallStrncmp(cs, ct, count), m)
            == if count <= k then 0 else if Char(m[cs + k]) < Char(m[ct + k]) then -1 else 1
  {
    CutBytes(m, cs, l, count);
    CutBytes(m, ct, d, count);
    if count <= k {
      CutsEqual(m, cs, ct, k, count);
    } else {
      CutsDiffer(m, cs, ct, k, count);
    }
  }

  lemma CutBytes(m: Memory, p: nat, l: nat, c: nat)
    requires EndsAt(m, p, l)
    ensures Readable(m, p, c) && CutLen(m, p, c) == if l <= c then l else c
    ensures l < c ==> m[p + l] == 0
  {
    LenIs(m, p, l);
    CutOfString(m, p, c);
  }

  lemma CutsEqual(m: Memory, cs: nat, ct: nat, k: nat, count: nat)
    requires Same(m, cs, ct, k) && count <= k && Readable(m, cs, count) && Readable(m, ct, count)
    requires CutLen(m, cs, count) == CutLen(m, ct, count) == count
    ensures CutOrder(m, cs, ct, count) == 0
  {
    var a, b := Cut(m, cs, count), Cut(m, ct, count);
    forall i | 0 <= i < count ensures a[i] == b[i] { AgreeAt(m, cs, ct, k, i); }
    assert a == b;
    OrderZeroIffEqual(true, a + [0], b + [0]);
  }

  lemma CutsDiffer(m: Memory, cs: nat, ct: nat, k: nat, count: nat)
    requires Same(m, cs, ct, k) && k < count && Readable(m, cs, count) && Readable(m, ct, count)
    requires k <= CutLen(m, cs, count) && k <= CutLen(m, ct, count)
    requires cs + k < |m| && ct + k < |m| && m[cs + k] != m[ct + k]
    ensures CutOrder(m, cs, ct, count) == if Char(m[cs + k]) < Char(m[ct + k]) then -1 else 1
  {
    var a, b, p, q := Cut(m, cs, count), Cut(m, ct, count), cs + k, ct + k;
    forall i | 0 <= i < k ensures a[..k][i] == b[..k][i] { AgreeAt(m, cs, ct, k, i); }
    assert CutsAgree(m, cs, ct, count, k);
    CutStep(m, cs, ct, count, k, p, q);
  }

  lemma MemcmpMeans(m: Memory, cs: word, ct: word, count: word, k: nat)
    requires Small(m) && cs + count <= |m| && ct + count <= |m| && k < count && m[cs + k] != m[ct + k]
    requires Same(m, cs, ct, k)
    ensures ReadAllowed(CallMemcmp(cs, ct, count), m)
    ensures ReadResult(CallMemcmp(cs, ct, count), m) == if Char(m[cs + k]) < Char(m[ct + k]) then -1 else 1
  {
    OrderAtDifference(true, m[cs..cs + count], m[ct..ct + count], k);
  }

  lemma MemcmpMeansEqual(m: Memory, cs: word, ct: word, count: word)
    requires Small(m) && count > 0 && Same(m, cs, ct, count)
    ensures ReadAllowed(CallMemcmp(cs, ct, count), m) && ReadResult(CallMemcmp(cs, ct, count), m) == 0
  {
    assert m[cs..cs + count] == m[ct..ct + count];
    OrderZeroIffEqual(true, m[cs..cs + count], m[ct..ct + count]);
  }

  /** m' is m but for n bytes at d. */
  predicate Elsewhere(m: Memory, m': Memory, d: nat, n: nat) {
    |m'| == |m| && forall k :: 0 <= k < |m| && !(d <= k < d + n) ==> m'[k] == m[k]
  }

  /** The n bytes that were at s are at d. */
  predicate Moved(m: Memory, s: nat, m': Memory, d: nat, n: nat) {
    s + n <= |m| && d + n <= |m'| && m'[d..d + n] == m[s..s + n]
  }

  lemma BlitMoves(m: Memory, d: nat, s: seq<byte>)
    requires d + |s| <= |m|
    ensures Elsewhere(m, Blit(m, d, s), d, |s|)
    ensures Blit(m, d, s)[d..d + |s|] == s
  {
  }

  /** A block of memory written at d. */
  lemma BlockWritten(m: Memory, d: nat, s: nat, end: nat, n: nat, m': Memory)
    requires n == end - s && s <= end <= |m| && d + n <= |m| && m' == Blit(m, d, m[s..end])
    ensures Moved(m, s, m', d, n) && Elsewhere(m, m', d, n)
  {
    BlitMoves(m, d, m[s..end]);
  }

  lemma ZstrIsBlock(m: Memory, s: nat, l: nat, end: nat)
    requires EndsAt(m, s, l) && end == s + l + 1
    ensures Terminated(m, s) && Len(m, s) == l && end <= |m| && Zstr(m, s) == m[s..end]
  {
    LenIs(m, s, l);
  }

  /** The w bytes of the string and its NUL. */
  lemma StrcpyMeans(m: Memory, d: word, s: word, l: nat, w: nat)
    requires EndsAt(m, s, l) && w == l + 1 && d + w <= |m| && (d <= s || s + w <= d)
    ensures WriteAllowed(CallStrcpy(d, s), m)
    ensures var m' := WriteEffect(CallStrcpy(d, s), m); Moved(m, s, m', d, w) && Elsewhere(m, m', d, w)
  {
    var end := s + w;
    ZstrIsBlock(m, s, l, end);
    BlockWritten(m, d, s, end, w, Blit(m, d, m[s..end]));
  }

  lemma StrcatAt(m: Memory, d: word, s: word, e: nat)
    requires WriteAllowed(CallStrcat(d, s), m) && e == EndOf(m, d)
    ensures e + |Zstr(m, s)| <= |m| && WriteEffect(CallStrcat(d, s), m) == Blit(m, e, Zstr(m, s))
  {
  }

  lemma StrncatAt(m: Memory, d: word, s: word, count: word, e: nat)
    requires WriteAllowed(CallStrncat(d, s, count), m) && e == EndOf(m, d) && count < 0x8000_0000
    ensures var written := Appended(Cut(m, s, count), count);
            e + |written| <= |m| && WriteEffect(CallStrncat(d, s, count), m) == Blit(m, e, written)
  {
  }

  /** The same at the end e of the string at d. */
  lemma StrcatMeans(m: Memory, d: word, n: nat, s: word, l: nat, e: nat, w: nat)
    requires EndsAt(m, d, n) && EndsAt(m, s, l) && e == d + n && w == l + 1
    requires e + w <= |m| && (e <= s || s + w <= e)
    ensures WriteAllowed(CallStrcat(d, s), m)
    ensures var m' := WriteEffect(CallStrcat(d, s), m); Moved(m, s, m', e, w) && Elsewhere(m, m', e, w)
  {
    var end := s + w;
    ZstrIsBlock(m, s, l, end);
    LenIs(m, d, n);
    StrcatAt(m, d, s, e);
    BlockWritten(m, e, s, end, w, WriteEffect(CallStrcat(d, s), m));
  }

  /** A written text and NULs behind it. */
  lemma WrittenWithNuls(m: Memory, d: nat, s: nat, c: nat, written: seq<byte>)
    requires s + c <= |m| && d + |written| <= |m| && c <= |written|
    requires written[..c] == m[s..s + c] && forall k :: c <= k < |written| ==> written[k] == 0
    ensures var m' := Blit(m, d, written);
            && Moved(m, s, m', d, c) && Elsewhere(m, m', d, |written|)
            && forall k :: d + c <= k < d + |written| ==> m'[k] == 0
  {
    var m' := Blit(m, d, written);
    BlitMoves(m, d, written);
    assert m'[d..d + c] == written[..c];
    forall k | d + c <= k < d + |written| ensures m'[k] == 0 {
      assert m'[k] == written[k - d];
    }
  }

  lemma CutIsBlock(m: Memory, p: nat, l: nat, count: nat, c: nat)
    requires EndsAt(m, p, l) && c == if l <= count then l else count
    ensures Readable(m, p, count) && CutLen(m, p, count) == c && p + c <= |m| && Cut(m, p, count) == m[p..p + c]
  {
    LenIs(m, p, l);
    CutOfString(m, p, count);
  }

  /** The string, cut off after count bytes, and NULs up to count bytes. */
  lemma StrncpyMeans(m: Memory, d: word, s: word, l: nat, count: word, c: nat, n: nat)
    requires EndsAt(m, s, l) && count < 0x8000_0000 && d + count <= |m|
    requires c == (if l <= count then l else count) && n == (if l < count then l + 1 else count)
    requires d <= s || s + n <= d
    ensures WriteAllowed(CallStrncpy(d, s, count), m)
    ensures var m' := WriteEffect(CallStrncpy(d, s, count), m);
            && Moved(m, s, m', d, c) && Elsewhere(m, m', d, count)
            && forall k :: d + c <= k < d + count ==> m'[k] == 0
  {
    CutIsBlock(m, s, l, count, c);
    var written := Padded(Cut(m, s, count), count);
    assert written[..c] == Cut(m, s, count);
    WrittenWithNuls(m, d, s, c, written);
  }

  lemma AppendedIs(text: seq<byte>, count: nat, w: nat)
    requires |text| <= count && w == if |text| < count then |text| + 2 else |text| + 1
    ensures |Appended(text, count)| == w && Appended(text, count)[..|text|] == text
    ensures forall k :: |text| <= k < w ==> Appended(text, count)[k] == 0
  {
  }

  lemma StrncatAllowed(m: Memory, d: word, n: nat, s: word, l: nat, count: word, e: nat, w: nat)
    requires EndsAt(m, d, n) && EndsAt(m, s, l) && count < 0x8000_0000
    requires e == d + n && w == (if l < count then l + 2 else count + 1)
    requires e + w <= |m| && (e <= s || s + w <= e + 1)
    ensures WriteAllowed(CallStrncat(d, s, count), m) && EndOf(m, d) == e
  {
    LenIs(m, s, l);
    LenIs(m, d, n);
  }

  /** The same without the padding, a NUL, and for a string that ends within count bytes another one. */
  lemma StrncatMeans(m: Memory, d: word, n: nat, s: word, l: nat, count: word, c: nat, e: nat, w: nat)
    requires EndsAt(m, d, n) && EndsAt(m, s, l) && count < 0x8000_0000
    requires e == d + n && c == (if l <= count then l else count) && w == (if l < count then c + 2 else c + 1)
    requires e + w <= |m| && (e <= s || s + w <= e + 1)
    ensures WriteAllowed(CallStrncat(d, s, count), m)
    ensures var m' := WriteEffect(CallStrncat(d, s, count), m);
            && Moved(m, s, m', e, c) && Elsewhere(m, m', e, w)
            && forall k :: e + c <= k < e + w ==> m'[k] == 0
  {
    CutIsBlock(m, s, l, count, c);
    StrncatAllowed(m, d, n, s, l, count, e, w);
    StrncatAt(m, d, s, count, e);
    AppendedIs(Cut(m, s, count), count, w);
    WrittenWithNuls(m, e, s, c, Appended(Cut(m, s, count), count));
  }

  /** memcpy moves a block that does not begin inside its source, as memmove moves every block. */
  lemma MemcpyMeans(m: Memory, d: word, s: word, count: word)
    requires s + count <= |m| && d + count <= |m| && (d <= s || s + count <= d)
    ensures WriteAllowed(CallMemcpy(d, s, count), m)
    ensures var m' := WriteEffect(CallMemcpy(d, s, count), m);
            Moved(m, s, m', d, count) && Elsewhere(m, m', d, count)
  {
    BlitMoves(m, d, m[s..s + count]);
  }

  lemma RepeatedByte(m: Memory, s: nat, period: nat, count: nat, k: nat, r: nat)
    requires 0 < period && s + period <= |m| && k < count && r == k % period
    ensures r < period && Periodic(m, s, period, count)[k] == m[s + r]
  {
    PhaseIsRemainder(k, period);
  }

  /** Into its own source it writes the bytes between the two addresses again and again. */
  lemma MemcpyRepeats(m: Memory, d: word, s: word, count: word, period: nat, k: nat, r: nat, p: nat)
    requires s < d < s + count && d + count <= |m| && period == d - s
    requires k < count && r == k % period && p == d + k
    ensures WriteAllowed(CallMemcpy(d, s, count), m)
    ensures var m' := WriteEffect(CallMemcpy(d, s, count), m);
            r < period && Elsewhere(m, m', d, count) && m'[p] == m[s + r]
  {
    RepeatedByte(m, s, period, count, k, r);
    MemcpyAt(m, d, s, count, period);
    WrittenByte(m, d, Periodic(m, s, period, count), k, p);
  }

  lemma CopiedOverlapping(m: Memory, d: nat, s: nat, count: nat, period: nat)
    requires s + count <= |m| && d + count <= |m| && s < d < s + count && period == d - s
    ensures CopiedBytes(m, s, d, count) == Periodic(m, s, period, count)
  {
  }

  lemma MemcpyAt(m: Memory, d: word, s: word, count: word, period: nat)
    requires WriteAllowed(CallMemcpy(d, s, count), m) && s < d < s + count && period == d - s
    ensures WriteEffect(CallMemcpy(d, s, count), m) == Blit(m, d, Periodic(m, s, period, count))
  {
    CopiedOverlapping(m, d, s, count, period);
    var written := CopiedBytes(m, s, d, count);
    assert WriteEffect(CallMemcpy(d, s, count), m) == Blit(m, d, written);
  }

  lemma WrittenByte(m: Memory, d: nat, w: seq<byte>, k: nat, p: nat)
    requires d + |w| <= |m| && k < |w| && p == d + k
    ensures Elsewhere(m, Blit(m, d, w), d, |w|) && Blit(m, d, w)[p] == w[k]
  {
  }

  lemma MemmoveMeans(m: Memory, d: word, s: word, count: word)
    requires s + count <= |m| && d + count <= |m|
    ensures WriteAllowed(CallMemmove(d, s, count), m)
    ensures var m' := WriteEffect(CallMemmove(d, s, count), m);
            Moved(m, s, m', d, count) && Elsewhere(m, m', d, count)
  {
    BlitMoves(m, d, m[s..s + count]);
  }

  lemma MemsetMeans(m: Memory, d: word, c: byte, count: word)
    requires d + count <= |m|
    ensures WriteAllowed(CallMemset(d, c, count), m)
    ensures var m' := WriteEffect(CallMemset(d, c, count), m);
            Elsewhere(m, m', d, count) && forall k :: d <= k < d + count ==> m'[k] == c
  {
  }
}
