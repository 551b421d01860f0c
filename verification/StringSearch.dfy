/** strchr, strrchr, memchr and strstr. */
module StringSearch {
  import opened Bytes
  import opened CStrings
  import opened Cpu
  import StringSets

  predicate OccursAt(h: seq<byte>, needle: seq<byte>, i: nat) {
    i + |needle| <= |h| && h[i..i + |needle|] == needle
  }

  /** The least position at or after i where needle occurs in h, -1 when there is none. */
  function FirstMatch(h: seq<byte>, needle: seq<byte>, i: nat): (r: int)
    requires i <= |h|
    ensures r == -1 || i <= r <= |h|
    ensures r >= 0 ==> OccursAt(h, needle, r)
    ensures forall j :: i <= j && (r == -1 || j < r) ==> !OccursAt(h, needle, j)
    decreases |h| - i
  {
    if OccursAt(h, needle, i) then i
    else if i == |h| then -1
    else FirstMatch(h, needle, i + 1)
  }

  /** Bytes that agree with bytes of the needle lie before the haystack's terminator. */
  lemma AgreementStaysInside(m: Memory, cs: nat, ct: nat, p: nat, n: nat)
    requires Terminated(m, cs) && Terminated(m, ct) && cs <= p <= EndOf(m, cs)
    requires n <= Len(m, ct) && p + n <= |m| && Agree(m, p, ct, n)
    ensures p + n <= EndOf(m, cs)
  {
    var k := EndOf(m, cs) - p;
    if k < n { AgreeAt(m, p, ct, n, k); }
  }

  lemma OccurrenceAt(h: seq<byte>, needle: seq<byte>, i: nat, k: nat)
    requires OccursAt(h, needle, i) && k < |needle|
    ensures h[i + k] == needle[k]
  {
    assert h[i..i + |needle|][k] == needle[k];
  }

  lemma OccursWhere(h: seq<byte>, needle: seq<byte>, i: nat)
    requires i + |needle| <= |h|
    requires forall k :: 0 <= k < |needle| ==> h[i + k] == needle[k]
    ensures OccursAt(h, needle, i)
  {
  }

  /** Byte k behind position i of the string cs, which is at p. */
  lemma HaystackByte(m: Memory, cs: nat, p: nat, i: nat, k: nat)
    requires Terminated(m, cs) && p == cs + i && i + k < Len(m, cs)
    ensures Str(m, cs)[i + k] == m[p + k]
  {
    var j := i + k;
    assert Str(m, cs)[j] == m[cs + j];
  }

  lemma AgreementOccurs(m: Memory, cs: nat, ct: nat, p: nat, i: nat)
    requires Terminated(m, cs) && Terminated(m, ct) && p == cs + i && i + Len(m, ct) <= Len(m, cs)
    requires Agree(m, p, ct, Len(m, ct))
    ensures OccursAt(Str(m, cs), Str(m, ct), i)
  {
    var h, needle := Str(m, cs), Str(m, ct);
    forall k | 0 <= k < |needle| ensures h[i + k] == needle[k] {
      AgreeAt(m, p, ct, |needle|, k);
      HaystackByte(m, cs, p, i, k);
    }
    OccursWhere(h, needle, i);
  }

  lemma OccurrenceAgrees(m: Memory, cs: nat, ct: nat, p: nat, i: nat, n: nat)
    requires Terminated(m, cs) && Terminated(m, ct) && p == cs + i && n < Len(m, ct)
    requires OccursAt(Str(m, cs), Str(m, ct), i)
    ensures m[p + n] == m[ct + n]
  {
    OccurrenceAt(Str(m, cs), Str(m, ct), i, n);
    HaystackByte(m, cs, p, i, n);
  }

  /** A comparison of which n bytes agree, ended by the needle or by a difference. */
  lemma Verdict(m: Memory, cs: nat, ct: nat, p: nat, i: nat, n: nat)
    requires Terminated(m, cs) && Terminated(m, ct) && p == cs + i && i + n <= Len(m, cs) && n <= Len(m, ct)
    requires Agree(m, p, ct, n) && (n == Len(m, ct) || m[p + n] != m[ct + n])
    ensures n == Len(m, ct) <==> OccursAt(Str(m, cs), Str(m, ct), i)
  {
    if n == Len(m, ct) {
      AgreementOccurs(m, cs, ct, p, i);
    } else if OccursAt(Str(m, cs), Str(m, ct), i) {
      OccurrenceAgrees(m, cs, ct, p, i, n);
    }
  }

  /** What the registers and ZF tell after such a comparison. */
  lemma AttemptEnds(m: Memory, cs: nat, ct: nat, p: nat, i: nat, n: nat)
    requires Terminated(m, cs) && Terminated(m, ct) && p == cs + i && i <= Len(m, cs)
    requires n <= Len(m, ct) && p + n <= |m| && Agree(m, p, ct, n)
    requires n == Len(m, ct) || (p + n < |m| && m[p + n] != m[ct + n])
    ensures p + n <= EndOf(m, cs)
    ensures n == Len(m, ct) <==> OccursAt(Str(m, cs), Str(m, ct), i)
    ensures m[p + n] == 0 <==> p + n == EndOf(m, cs)
  {
    AgreementStaysInside(m, cs, ct, p, n);
    Verdict(m, cs, ct, p, i, n);
  }

  /** A mismatch at the haystack's terminator leaves no room for a later occurrence. */
  lemma NoRoomLater(h: seq<byte>, needle: seq<byte>, i: nat)
    requires i <= |h| && |h| - i < |needle|
    ensures FirstMatch(h, needle, i) == -1
  {
  }

  predicate NoMatchBefore(h: seq<byte>, needle: seq<byte>, i: nat) {
    forall j: nat :: j < i ==> !OccursAt(h, needle, j)
  }

  lemma FirstMatchIs(h: seq<byte>, needle: seq<byte>, i: nat)
    requires i <= |h| && NoMatchBefore(h, needle, i)
    ensures OccursAt(h, needle, i) ==> FirstMatch(h, needle, 0) == i
    ensures !OccursAt(h, needle, i) ==> NoMatchBefore(h, needle, i + 1)
    ensures |h| - i < |needle| ==> FirstMatch(h, needle, 0) == -1
  {
    if |h| - i < |needle| { NoRoomLater(h, needle, i); }
    assert FirstMatch(h, needle, 0) >= 0 ==> OccursAt(h, needle, FirstMatch(h, needle, 0));
  }

  /**
   * Label 1 of strstr up to its first jump: the needle, of length edx, is compared
   * with the haystack at esi, which lies i bytes into the string cs.
   */
  method Attempt(cpu: Machine, cs: word, ct: word, esi: word, edx: word) returns (esi': word)
    requires cpu.Fits() && !cpu.df && Terminated(cpu.mem[..], cs) && Terminated(cpu.mem[..], ct)
    requires edx == Len(cpu.mem[..], ct) && (edx == 0 ==> cpu.zf)
    requires cs <= esi <= EndOf(cpu.mem[..], cs)
    modifies cpu`zf, cpu`sf, cpu`lt
    ensures cpu.zf <==> OccursAt(Str(cpu.mem[..], cs), Str(cpu.mem[..], ct), esi - cs)
    ensures esi <= esi' <= EndOf(cpu.mem[..], cs) + 1
    ensures !cpu.zf ==> esi < esi' && edx > esi' - 1 - esi
    ensures !cpu.zf ==> (cpu.mem[esi' - 1] == 0 <==> esi' == EndOf(cpu.mem[..], cs) + 1)
  {
    ghost var m, e := cpu.mem[..], EndOf(cpu.mem[..], cs);
    ghost var stop := e - esi;
    assert stop < edx ==> m[ct + stop] != 0;
    var edi, ecx;
    ghost var n;
    esi', edi, ecx, n := cpu.RepeCmpsb(esi, ct, edx, stop);
    AttemptEnds(m, cs, ct, esi, esi - cs, n);
  }

  /** xchgl %eax,%esi; incl %esi; cmpb $0,-1(%eax). */
  method NextPosition(cpu: Machine, eax: word, esi: word) returns (eax': word, esi': word)
    requires cpu.Fits() && 0 < esi <= cpu.mem.Length && eax < esi
    modifies cpu`zf, cpu`sf, cpu`lt
    ensures eax' == esi && esi' == eax + 1 && cpu.zf == (cpu.mem[esi - 1] == 0)
  {
    eax', esi' := esi, eax;
    esi' := cpu.Incl(esi');
    cpu.TestByte(cpu.mem[eax' - 1]);
  }

  /**
   * The result and, for the proof only, one past the highest byte of the haystack
   * that was read.
   */
  method Strstr(cpu: Machine, cs: word, ct: word) returns (res: word, ghost top: int)
    requires cpu.Fits() && Terminated(cpu.mem[..], cs) && Terminated(cpu.mem[..], ct)
    modifies cpu
    ensures !cpu.df
    ensures var i := FirstMatch(Str(cpu.mem[..], cs), Str(cpu.mem[..], ct), 0);
            res == if i < 0 then NULL else cs + i
    ensures top <= EndOf(cpu.mem[..], cs) + 1
  {
    ghost var m := cpu.mem[..];
    ghost var h, needle := Str(m, cs), Str(m, ct);
    cpu.df := false;
    var edx := StringSets.Measure(cpu, ct);
    var esi := cs;
    top := cs;
    while true
      invariant !cpu.df && (edx == 0 ==> cpu.zf)
      invariant cs <= esi <= cs + |h|
      invariant cpu.mem[..] == m && NoMatchBefore(h, needle, esi - cs)
      invariant top <= cs + |h| + 1
      decreases cs + |h| - esi
    {
      FirstMatchIs(h, needle, esi - cs);
      var eax := esi;
      esi := Attempt(cpu, cs, ct, esi, edx);
      top := if esi < top then top else esi;
      if cpu.zf { return eax, top; }
      eax, esi := NextPosition(cpu, eax, esi);
      if cpu.zf { return NULL, top; }
    }
  }

  /** Position of the first c in s, |s| when there is none. */
  function IndexOf(s: seq<byte>, c: byte): (n: nat)
    ensures n <= |s| && forall k :: 0 <= k < n ==> s[k] != c
    ensures n < |s| ==> s[n] == c
  {
    if s == [] || s[0] == c then 0 else 1 + IndexOf(s[1..], c)
  }

  lemma IndexOfIs(s: seq<byte>, c: byte, n: nat)
    requires n <= |s| && (forall k :: 0 <= k < n ==> s[k] != c) && (n < |s| ==> s[n] == c)
    ensures IndexOf(s, c) == n
  {
    assert IndexOf(s, c) < |s| ==> s[IndexOf(s, c)] == c;
  }

  /** The terminator belongs to the string, so strchr(s, 0) finds it. */
  method Strchr(cpu: Machine, s: word, c: byte) returns (res: word)
    requires cpu.Fits() && Terminated(cpu.mem[..], s)
    modifies cpu
    ensures !cpu.df
    ensures var z := Zstr(cpu.mem[..], s);
            res == if c in z then s + IndexOf(z, c) else NULL
  {
    ghost var z := Zstr(cpu.mem[..], s);
    cpu.df := false;
    var al, ah := c, c;
    var esi := s;
    while true
      invariant !cpu.df && s <= esi < s + |z|
      invariant forall k :: 0 <= k < esi - s ==> z[k] != c
      decreases s + |z| - esi
    {
      al, esi := cpu.Lodsb(esi);
      assert z[esi - 1 - s] == al;
      cpu.CompareBytes(al, ah);
      if cpu.zf {
        IndexOfIs(z, c, esi - 1 - s);
        break;
      }
      cpu.TestByte(al);
      if cpu.zf {
        esi := 1;
        break;
      }
    }
    res := cpu.Decl(esi);
  }

  /** Position of the last c in s, |s| when there is none. */
  function LastIndexOf(s: seq<byte>, c: byte): (n: nat)
    ensures n <= |s| && forall k :: n < k < |s| ==> s[k] != c
    ensures n < |s| ==> s[n] == c
    ensures n == |s| ==> forall k :: 0 <= k < |s| ==> s[k] != c
  {
    if s == [] then 0
    else if s[|s| - 1] == c then |s| - 1
    else
      var n := LastIndexOf(s[..|s| - 1], c);
      if n == |s| - 1 then |s| else n
  }

  /**
   * Where the last c before position end is, as strrchr keeps track of it: low is one
   * past it, 0 when there is none.
   */
  predicate LastBefore(s: seq<byte>, c: byte, end: nat, low: nat) {
    low <= end <= |s| && (low > 0 ==> s[low - 1] == c) && forall k :: low <= k < end ==> s[k] != c
  }

  lemma LastBeforeStep(s: seq<byte>, c: byte, end: nat, low: nat)
    requires end < |s| && LastBefore(s, c, end, low)
    ensures LastBefore(s, c, end + 1, if s[end] == c then end + 1 else low)
  {
  }

  lemma LastIndexOfIs(s: seq<byte>, c: byte, low: nat)
    requires LastBefore(s, c, |s|, low)
    ensures c in s <==> low > 0
    ensures low > 0 ==> LastIndexOf(s, c) == low - 1
  {
    if low > 0 { assert s[low - 1] == c; }
  }

  /** The last occurrence, the terminator included. */
  method Strrchr(cpu: Machine, s: word, c: byte) returns (res: word)
    requires cpu.Fits() && Terminated(cpu.mem[..], s)
    modifies cpu
    ensures !cpu.df
    ensures var z := Zstr(cpu.mem[..], s);
            res == if c in z then s + LastIndexOf(z, c) else NULL
  {
    ghost var z := Zstr(cpu.mem[..], s);
    cpu.df := false;
    var al, ah := c, c;
    var edx, esi := NULL, s;
    ghost var low := 0;
    while true
      invariant !cpu.df && s <= esi < s + |z| && LastBefore(z, c, esi - s, low)
      invariant edx == if low == 0 then NULL else s + (low - 1)
      decreases s + |z| - esi
    {
      ghost var end := esi - s;
      LastBeforeStep(z, c, end, low);
      al, esi := cpu.Lodsb(esi);
      assert z[end] == al;
      cpu.CompareBytes(al, ah);
      if cpu.zf {
        edx := cpu.Decl(esi);
        low := end + 1;
      }
      cpu.TestByte(al);
      if cpu.zf { break; }
    }
    LastIndexOfIs(z, c, low);
    res := edx;
  }

  method Memchr(cpu: Machine, cs: word, c: byte, count: word) returns (res: word)
    requires cpu.Fits() && cs <= cpu.mem.Length
    requires cs + count <= cpu.mem.Length || c in cpu.mem[cs..]
    modifies cpu
    ensures var found := IndexOf(cpu.mem[cs..], c);
            res == if found < count && cs + found < cpu.mem.Length then cs + found else NULL
    ensures count > 0 ==> !cpu.df
    ensures count == 0 ==> cpu.df == old(cpu.df)
  {
    if count == 0 { return NULL; }
    cpu.df := false;
    var edi, ecx := cpu.RepneScasb(c, cs, count);
    ghost var block := cpu.mem[cs..];
    assert forall k :: 0 <= k < |block| ==> block[k] == cpu.mem[cs + k];
    if cpu.zf {
      IndexOfIs(block, c, edi - 1 - cs);
    } else {
      edi := 1;
    }
    res := cpu.Decl(edi);
  }
}
