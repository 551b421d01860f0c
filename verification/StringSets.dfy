/** strlen and the routines that test bytes for membership in a string. */
module StringSets {
  import opened Bytes
  import opened CStrings
  import opened Cpu

  /**
   * repne scasb with al = 0 and ecx = 0xffffffff, then notl and decl: the length of
   * the string, with ZF telling whether it is empty.
   */
  method Measure(cpu: Machine, p: word) returns (ecx: word)
    requires cpu.Fits() && !cpu.df && Terminated(cpu.mem[..], p)
    modifies cpu`zf, cpu`sf, cpu`lt
    ensures ecx == Len(cpu.mem[..], p)
    ensures cpu.zf == (ecx == 0)
  {
    var edi: word;
    edi, ecx := cpu.RepneScasb(0, p, ALL_ONES);
    assert cpu.zf by {
      assert cpu.mem[..][p + Len(cpu.mem[..], p)] == 0;
    }
    LenIs(cpu.mem[..], p, edi - 1 - p);
    ecx := Not(ecx);
    ecx := cpu.Decl(ecx);
  }

  method Strlen(cpu: Machine, s: word) returns (res: int)
    requires cpu.Fits() && Terminated(cpu.mem[..], s)
    modifies cpu
    ensures res == Int32(Len(cpu.mem[..], s))
    ensures cpu.zf == (Len(cpu.mem[..], s) == 0) && !cpu.df
  {
    cpu.df := false;
    var ecx := Measure(cpu, s);
    res := Int32(ecx);
  }

  /**
   * movl ct,%edi; movl %edx,%ecx; repne scasb: is al in the string ct of length edx?
   * For an empty string ZF is what it was.
   */
  method ScanSet(cpu: Machine, al: byte, ct: word, edx: word)
    requires cpu.Fits() && !cpu.df && Terminated(cpu.mem[..], ct) && edx == Len(cpu.mem[..], ct)
    modifies cpu`zf, cpu`sf, cpu`lt
    ensures cpu.zf == if edx == 0 then old(cpu.zf) else al in Str(cpu.mem[..], ct)
  {
    ghost var delims := Str(cpu.mem[..], ct);
    var edi, ecx := cpu.RepneScasb(al, ct, edx);
    if edx > 0 {
      if cpu.zf {
        assert delims[edi - 1 - ct] == al;
      } else {
        assert forall k :: 0 <= k < edx ==> delims[k] == cpu.mem[ct + k];
      }
    }
  }

  /**
   * The loop that strspn and strtok (inside) and strcspn, strpbrk and strtok (not
   * inside) have in common. The last result tells whether it was left by the jump
   * that follows the test for NUL.
   */
  method ScanSpan(cpu: Machine, cs: word, ct: word, edx: word, inside: bool, ghost m: Memory)
    returns (esi: word, atEnd: bool)
    requires cpu.Fits() && !cpu.df && m == cpu.mem[..] && Terminated(m, cs) && Terminated(m, ct)
    requires edx == Len(m, ct)
    modifies cpu`zf, cpu`sf, cpu`lt
    ensures var n := SpanLen(Str(m, cs), Str(m, ct), inside); esi == cs + n + 1 && (atEnd <==> n == Len(m, cs))
  {
    ghost var s, delims := Str(m, cs), Str(m, ct);
    esi := cs;
    while true
      invariant cs <= esi <= cs + SpanLen(s, delims, inside)
      decreases cs + |s| - esi
    {
      ghost var n := esi - cs;
      ByteOfString(m, cs, n, esi);
      var al;
      al, esi := cpu.Lodsb(esi);
      cpu.TestByte(al);
      if cpu.zf { return esi, true; }
      SpanGoesOn(s, delims, inside, n);
      ScanSet(cpu, al, ct, edx);
      if cpu.zf != inside { return esi, false; }
    }
  }

  method Strspn(cpu: Machine, cs: word, ct: word) returns (res: int)
    requires cpu.Fits() && Terminated(cpu.mem[..], cs) && Terminated(cpu.mem[..], ct)
    modifies cpu
    ensures !cpu.df
    ensures res == Int32(SpanLen(Str(cpu.mem[..], cs), Str(cpu.mem[..], ct), true))
  {
    cpu.df := false;
    var edx := Measure(cpu, ct);
    var esi, atEnd := ScanSpan(cpu, cs, ct, edx, true, cpu.mem[..]);
    esi := cpu.Decl(esi);
    res := Int32(esi - cs);
  }

  method Strcspn(cpu: Machine, cs: word, ct: word) returns (res: int)
    requires cpu.Fits() && Terminated(cpu.mem[..], cs) && Terminated(cpu.mem[..], ct)
    modifies cpu
    ensures !cpu.df
    ensures res == Int32(SpanLen(Str(cpu.mem[..], cs), Str(cpu.mem[..], ct), false))
  {
    cpu.df := false;
    var edx := Measure(cpu, ct);
    var esi, atEnd := ScanSpan(cpu, cs, ct, edx, false, cpu.mem[..]);
    esi := cpu.Decl(esi);
    res := Int32(esi - cs);
  }

  /** The first byte of cs that is in ct, or NULL when the span outside ct reaches the end. */
  method Strpbrk(cpu: Machine, cs: word, ct: word) returns (res: word)
    requires cpu.Fits() && Terminated(cpu.mem[..], cs) && Terminated(cpu.mem[..], ct)
    modifies cpu
    ensures !cpu.df
    ensures var n := SpanLen(Str(cpu.mem[..], cs), Str(cpu.mem[..], ct), false);
            res == if n == Len(cpu.mem[..], cs) then NULL else cs + n
  {
    cpu.df := false;
    var edx := Measure(cpu, ct);
    var esi, atEnd := ScanSpan(cpu, cs, ct, edx, false, cpu.mem[..]);
    if atEnd {
      res := NULL;
    } else {
      res := cpu.Decl(esi);
    }
  }
}
