/** strcmp, strncmp and memcmp. */
module StringCompare {
  import opened Bytes
  import opened CStrings
  import opened Cpu
  import opened Orders

  /** What the exits of the three routines compute from the last byte comparison. */
  function Sign(less: bool): int {
    if less then 1 else -1
  }

  /** The order of the two strings at cs and ct when both are cut off after n bytes. */
  function CutOrder(m: Memory, cs: int, ct: int, n: nat): int
    requires Readable(m, cs, n) && Readable(m, ct, n)
  {
    Order(true, Cut(m, cs, n) + [0], Cut(m, ct, n) + [0])
  }

  /** What is read k bytes into a string of text s: its byte, or the terminator. */
  function ByteAt(s: seq<byte>, k: nat): byte {
    if k < |s| then s[k] else 0
  }

  /** What the next pair of bytes says about the order of two strings equal so far. */
  lemma CompareStep(s: seq<byte>, t: seq<byte>, k: nat)
    requires k <= |s| && k <= |t| && s[..k] == t[..k]
    ensures k == |s| == |t| ==> Order(true, s + [0], t + [0]) == 0
    ensures ByteAt(s, k) != ByteAt(t, k) ==>
              Order(true, s + [0], t + [0]) == if Signed8(ByteAt(s, k)) < Signed8(ByteAt(t, k)) then -1 else 1
    ensures k < |s| && k < |t| && s[k] == t[k] ==> s[..k + 1] == t[..k + 1]
  {
    var a, b := s + [0], t + [0];
    if k == |s| == |t| {
      assert s == s[..k] && t == t[..k];
      OrderZeroIffEqual(true, a, b);
    } else if ByteAt(s, k) != ByteAt(t, k) {
      assert forall i :: 0 <= i < k ==> a[i] == s[..k][i] && b[i] == t[..k][i];
      OrderAtDifference(true, a, b, k);
    } else if k < |s| && k < |t| {
      assert s[..k + 1] == s[..k] + [s[k]] && t[..k + 1] == t[..k] + [t[k]];
    }
  }

  /** The byte at q, k bytes into the string at p cut off after n. */
  lemma ByteOfCut(m: Memory, p: nat, n: nat, k: nat, q: nat)
    requires Readable(m, p, n) && k <= CutLen(m, p, n) && k < n && q == p + k
    ensures q < |m| && m[q] == ByteAt(Cut(m, p, n), k)
  {
  }

  /** What strcmp returns for the strings with these texts. */
  function TextOrder(s: seq<byte>, t: seq<byte>): int {
    Order(true, s + [0], t + [0])
  }

  /** strcmp is a total order of strings, 0 for equal ones only. */
  lemma StrcmpIsTotalOrder(s: seq<byte>, t: seq<byte>, u: seq<byte>)
    ensures TextOrder(s, t) == 0 <==> s == t
    ensures TextOrder(t, s) == -TextOrder(s, t)
    ensures TextOrder(s, t) <= 0 && TextOrder(t, u) <= 0 ==> TextOrder(s, u) <= 0
    ensures TextOrder(s, t) <= 0 && TextOrder(t, u) <= 0 && s != u ==> TextOrder(s, u) < 0
  {
    OrderZeroIffEqual(true, s + [0], t + [0]);
    OrderZeroIffEqual(true, s + [0], u + [0]);
    assert (s + [0])[..|s|] == s && (t + [0])[..|t|] == t && (u + [0])[..|u|] == u;
    OrderAntisymmetric(true, s + [0], t + [0]);
    if TextOrder(s, t) <= 0 && TextOrder(t, u) <= 0 {
      OrderTransitive(true, s + [0], t + [0], u + [0]);
    }
  }

  method Strcmp(cpu: Machine, cs: word, ct: word) returns (res: int)
    requires cpu.Fits() && Terminated(cpu.mem[..], cs) && Terminated(cpu.mem[..], ct)
    modifies cpu
    ensures !cpu.df
    ensures res == Order(true, Zstr(cpu.mem[..], cs), Zstr(cpu.mem[..], ct))
  {
    ghost var s, t := Str(cpu.mem[..], cs), Str(cpu.mem[..], ct);
    cpu.df := false;
    var edi, esi := cs, ct;
    while true
      invariant !cpu.df
      invariant cs <= edi && ct <= esi == ct + (edi - cs)
      invariant edi - cs <= |s| && esi - ct <= |t| && s[..edi - cs] == t[..edi - cs]
      decreases cs + |s| - edi
    {
      CompareStep(s, t, edi - cs);
      assert ByteAt(s, edi - cs) == cpu.mem[edi] && ByteAt(t, edi - cs) == cpu.mem[esi];
      var al;
      al, esi := cpu.Lodsb(esi);
      edi := cpu.Scasb(al, edi);
      if !cpu.zf { return Sign(cpu.lt); }
      cpu.TestByte(al);
      if cpu.zf { return 0; }
    }
  }

  /** The strings at cs and ct, cut off after n bytes, agree on their first k. */
  predicate CutsAgree(m: Memory, cs: nat, ct: nat, n: nat, k: nat)
    requires Readable(m, cs, n) && Readable(m, ct, n)
  {
    k <= CutLen(m, cs, n) && k <= CutLen(m, ct, n) && Cut(m, cs, n)[..k] == Cut(m, ct, n)[..k]
  }

  /** What the bytes at p and q, k bytes into the two strings, say about their order. */
  lemma CutStep(m: Memory, cs: nat, ct: nat, n: nat, k: nat, p: nat, q: nat)
    requires Readable(m, cs, n) && Readable(m, ct, n) && CutsAgree(m, cs, ct, n, k) && p == cs + k && q == ct + k
    ensures k == n ==> CutOrder(m, cs, ct, n) == 0
    ensures k < n ==> p < |m| && q < |m|
    ensures k < n && m[p] != m[q] ==> CutOrder(m, cs, ct, n) == Sign(Signed8(m[q]) < Signed8(m[p]))
    ensures k < n && m[p] == m[q] == 0 ==> CutOrder(m, cs, ct, n) == 0
    ensures k < n && m[p] == m[q] != 0 ==> CutsAgree(m, cs, ct, n, k + 1)
  {
    CompareStep(Cut(m, cs, n), Cut(m, ct, n), k);
    if k < n {
      ByteOfCut(m, cs, n, k, p);
      ByteOfCut(m, ct, n, k, q);
    }
  }

  /** At most count bytes of each string are compared. */
  method Strncmp(cpu: Machine, cs: word, ct: word, count: word) returns (res: int)
    requires cpu.Fits()
    requires Readable(cpu.mem[..], cs, Rounds(count)) && Readable(cpu.mem[..], ct, Rounds(count))
    modifies cpu
    ensures !cpu.df
    ensures res == CutOrder(cpu.mem[..], cs, ct, Rounds(count))
  {
    ghost var m, n := cpu.mem[..], Rounds(count);
    cpu.df := false;
    var edi, esi, ecx := cs, ct, count;
    while true
      invariant !cpu.df
      invariant cs <= edi && ct <= esi == ct + (edi - cs)
      invariant Rounds(ecx) == n - (edi - cs) && CutsAgree(m, cs, ct, n, edi - cs)
      decreases Rounds(ecx)
    {
      CutStep(m, cs, ct, n, edi - cs, edi, esi);
      ecx := cpu.Decl(ecx);
      if cpu.sf { return 0; }
      var al;
      al, esi := cpu.Lodsb(esi);
      edi := cpu.Scasb(al, edi);
      if !cpu.zf { return Sign(cpu.lt); }
      cpu.TestByte(al);
      if cpu.zf { return 0; }
    }
  }

  /** The order of two blocks of which n bytes agree and then the blocks or the agreement end. */
  lemma BlockOrder(m: Memory, cs: nat, ct: nat, count: nat, n: nat)
    requires cs + count <= |m| && ct + count <= |m| && n <= count && Agree(m, ct, cs, n)
    requires n == count || m[cs + n] != m[ct + n]
    ensures Order(true, m[cs..cs + count], m[ct..ct + count])
            == if n == count then 0 else if Signed8(m[cs + n]) < Signed8(m[ct + n]) then -1 else 1
  {
    var a, b := m[cs..cs + count], m[ct..ct + count];
    if n == count {
      OrderZeroIffEqual(true, a, b);
    } else {
      forall i | 0 <= i < n ensures a[i] == b[i] {
        AgreeAt(m, ct, cs, n, i);
      }
      OrderAtDifference(true, a, b, n);
    }
  }

  /**
   * With a count of 0 nothing is compared and the result comes from the flags that
   * happened to be there; otherwise it is the order of the two blocks.
   */
  method Memcmp(cpu: Machine, cs: word, ct: word, count: word) returns (res: int)
    requires cpu.Fits() && cs + count <= cpu.mem.Length && ct + count <= cpu.mem.Length
    modifies cpu
    ensures !cpu.df
    ensures count > 0 ==> res == Order(true, cpu.mem[cs..cs + count], cpu.mem[ct..ct + count])
    ensures count == 0 ==> res == if old(cpu.zf) then 0 else Sign(old(cpu.lt))
  {
    cpu.df := false;
    var eax := 0;
    var esi, edi, ecx, n := cpu.RepeCmpsb(ct, cs, count, 0);
    BlockOrder(cpu.mem[..], cs, ct, count, n);
    assert cpu.mem[..][cs..cs + count] == cpu.mem[cs..cs + count];
    assert cpu.mem[..][ct..ct + count] == cpu.mem[ct..ct + count];
    if !cpu.zf { eax := Sign(cpu.lt); }
    res := eax;
  }

  /** strncmp orders two strings as strcmp orders their first n bytes. */
  lemma StrncmpIsStrcmpOfCuts(m: Memory, cs: nat, ct: nat, n: nat)
    requires Terminated(m, cs) && Terminated(m, ct)
    ensures Readable(m, cs, n) && Readable(m, ct, n)
    ensures var a, b := Str(m, cs), Str(m, ct);
            CutOrder(m, cs, ct, n)
            == Order(true, (if |a| <= n then a else a[..n]) + [0], (if |b| <= n then b else b[..n]) + [0])
  {
    CutOfString(m, cs, n);
    CutOfString(m, ct, n);
  }
}
