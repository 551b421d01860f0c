/** strcpy, strncpy, strcat and strncat. */
module StringCopy {
  import opened Bytes
  import opened CStrings
  import opened Cpu
  import opened BlockCopy
  import StringSets

  /** One more byte, from p to q, of the n that are being copied upwards. */
  lemma CopyOneMore(m: Memory, src: nat, d: nat, p: nat, q: nat, n: nat)
    requires src + n <= |m| && d + n <= |m| && src <= p < src + n && q == d + (p - src) && Undisturbed(src, n, d)
    ensures Blit(m, d, m[src..p])[p] == m[p]
    ensures Blit(m, d, m[src..p])[q := m[p]] == Blit(m, d, m[src..p + 1])
  {
    BlitAppend(m, d, m[src..p], m[p]);
    assert m[src..p + 1] == m[src..p] + [m[p]];
  }

  /** lodsb; stosb; testb: the next byte of the n that a copy from src to dest reads. */
  method CopyByte(cpu: Machine, esi: word, edi: word, ghost m: Memory, ghost src: nat, ghost dest: nat, ghost n: nat)
    returns (esi': word, edi': word)
    requires cpu.Fits() && !cpu.df && src <= esi < src + n && edi == dest + (esi - src)
    requires |m| == cpu.mem.Length && src + n <= |m| && dest + n <= |m| && Undisturbed(src, n, dest)
    requires cpu.mem[..] == Blit(m, dest, m[src..esi])
    modifies cpu`zf, cpu`sf, cpu`lt, cpu.mem
    ensures esi' == esi + 1 && edi' == edi + 1
    ensures cpu.mem[..] == Blit(m, dest, m[src..esi'])
    ensures cpu.zf == (m[esi] == 0)
  {
    CopyOneMore(m, src, dest, esi, edi, n);
    assert cpu.mem[esi] == cpu.mem[..][esi];
    var al;
    al, esi' := cpu.Lodsb(esi);
    edi' := cpu.Stosb(al, edi);
    cpu.TestByte(al);
  }

  /** The loop that strcpy and strcat share, for a source of l bytes before its NUL. */
  method CopyText(cpu: Machine, src: word, dest: word, ghost m: Memory, ghost l: nat)
    requires cpu.Fits() && !cpu.df && m == cpu.mem[..]
    requires src + l < |m| && dest + l < |m| && Undisturbed(src, l + 1, dest)
    requires m[src + l] == 0 && forall k :: src <= k < src + l ==> m[k] != 0
    modifies cpu`zf, cpu`sf, cpu`lt, cpu.mem
    ensures cpu.mem[..] == Blit(m, dest, m[src..src + l + 1])
  {
    var esi, edi := src, dest;
    assert m[src..src] == [];
    while true
      invariant src <= esi <= src + l && edi == dest + (esi - src)
      invariant cpu.mem[..] == Blit(m, dest, m[src..esi])
      decreases src + l - esi
    {
      esi, edi := CopyByte(cpu, esi, edi, m, src, dest, l + 1);
      if cpu.zf { return; }
    }
  }

  lemma BlitOfZstr(m: Memory, d: nat, p: int)
    requires Terminated(m, p) && d + Len(m, p) < |m|
    ensures Blit(m, d, m[p..p + Len(m, p) + 1]) == Blit(m, d, Zstr(m, p))
  {
    assert m[p..p + Len(m, p) + 1] == Zstr(m, p);
  }

  method Strcpy(cpu: Machine, dest: word, src: word) returns (res: word)
    requires cpu.Fits() && Terminated(cpu.mem[..], src)
    requires dest + Len(cpu.mem[..], src) < cpu.mem.Length
    requires Undisturbed(src, Len(cpu.mem[..], src) + 1, dest)
    modifies cpu, cpu.mem
    ensures res == dest && !cpu.df
    ensures cpu.mem[..] == Blit(old(cpu.mem[..]), dest, Zstr(old(cpu.mem[..]), src))
  {
    ghost var m, l := cpu.mem[..], Len(cpu.mem[..], src);
    cpu.df := false;
    CopyText(cpu, src, dest, m, l);
    BlitOfZstr(m, dest, src);
    res := dest;
  }

  /** repne scasb for NUL and decl: the address of the terminator. */
  method FindEnd(cpu: Machine, dest: word) returns (edi: word)
    requires cpu.Fits() && !cpu.df && Terminated(cpu.mem[..], dest)
    modifies cpu`zf, cpu`sf, cpu`lt
    ensures edi == EndOf(cpu.mem[..], dest)
  {
    var ecx;
    edi, ecx := cpu.RepneScasb(0, dest, ALL_ONES);
    assert cpu.zf by {
      assert cpu.mem[..][EndOf(cpu.mem[..], dest)] == 0;
    }
    LenIs(cpu.mem[..], dest, edi - 1 - dest);
    edi := cpu.Decl(edi);
  }

  method Strcat(cpu: Machine, dest: word, src: word) returns (res: word)
    requires cpu.Fits() && Terminated(cpu.mem[..], dest) && Terminated(cpu.mem[..], src)
    requires EndOf(cpu.mem[..], dest) + Len(cpu.mem[..], src) < cpu.mem.Length
    requires Undisturbed(src, Len(cpu.mem[..], src) + 1, EndOf(cpu.mem[..], dest))
    modifies cpu, cpu.mem
    ensures res == dest && !cpu.df
    ensures var m := old(cpu.mem[..]);
            cpu.mem[..] == Blit(m, EndOf(m, dest), Zstr(m, src))
  {
    ghost var m, l := cpu.mem[..], Len(cpu.mem[..], src);
    cpu.df := false;
    assert cpu.mem[..] == m;
    var edi := FindEnd(cpu, dest);
    assert cpu.mem[..] == m && edi == EndOf(m, dest);
    CopyText(cpu, src, edi, m, l);
    BlitOfZstr(m, EndOf(m, dest), src);
    res := dest;
  }

  /**
   * The loop that strncpy and strncat share, for a source whose first l bytes are not
   * NUL and are followed by a NUL unless the count is used up. It ends at the jump on
   * a negative count or, with the rest of the count in ecx, after a NUL was copied.
   */
  method CopyCounted(cpu: Machine, src: word, dest: word, count: word, ghost m: Memory, ghost l: nat)
    returns (edi: word, ecx: word, expired: bool)
    requires cpu.Fits() && !cpu.df && m == cpu.mem[..] && l <= Rounds(count)
    requires var n := if l < Rounds(count) then l + 1 else l;
             src + n <= |m| && dest + n <= |m| && Undisturbed(src, n, dest)
    requires forall k :: src <= k < src + l ==> m[k] != 0
    requires l < Rounds(count) ==> m[src + l] == 0
    modifies cpu`zf, cpu`sf, cpu`lt, cpu.mem
    ensures expired <==> l == Rounds(count)
    ensures expired ==> edi == dest + l && cpu.mem[..] == Blit(m, dest, m[src..src + l])
    ensures !expired ==> edi == dest + l + 1 && ecx == Rounds(count) - l - 1
                         && cpu.mem[..] == Blit(m, dest, m[src..src + l + 1])
  {
    ghost var n := if l < Rounds(count) then l + 1 else l;
    var esi;
    esi, edi, ecx := src, dest, count;
    assert m[src..src] == [];
    while true
      invariant src <= esi <= src + l && edi == dest + (esi - src)
      invariant Rounds(ecx) == Rounds(count) - (esi - src)
      invariant cpu.mem[..] == Blit(m, dest, m[src..esi])
      decreases src + l + 1 - esi
    {
      ecx := cpu.Decl(ecx);
      if cpu.sf { return edi, ecx, true; }
      esi, edi := CopyByte(cpu, esi, edi, m, src, dest, n);
      if cpu.zf { return edi, ecx, false; }
    }
  }

  /** How many bytes a counted copy reads from p. */
  function ReadCount(m: Memory, p: int, n: nat): (r: nat)
    requires Readable(m, p, n)
    ensures p + r <= |m|
  {
    if CutLen(m, p, n) < n then CutLen(m, p, n) + 1 else n
  }

  lemma BlitTwice(m: Memory, d: nat, a: seq<byte>, b: seq<byte>)
    requires d + |a| + |b| <= |m|
    ensures Blit(Blit(m, d, a), d + |a|, b) == Blit(m, d, a + b)
  {
  }

  /** What strncpy writes for a text cut at n bytes. */
  function Padded(text: seq<byte>, n: nat): (s: seq<byte>)
    requires |text| <= n
    ensures |s| == n
  {
    text + Fill(n - |text|, 0)
  }

  lemma PaddedWhenCut(m: Memory, src: nat, n: nat, l: nat)
    requires Readable(m, src, n) && CutLen(m, src, n) == l == n
    ensures Padded(Cut(m, src, n), n) == m[src..src + l]
  {
  }

  lemma PaddedInTwo(m: Memory, src: nat, d: nat, n: nat, l: nat, edi: nat, ecx: nat)
    requires Readable(m, src, n) && d + n <= |m| && CutLen(m, src, n) == l < n
    requires edi == d + l + 1 && ecx == n - l - 1
    ensures Blit(Blit(m, d, m[src..src + l + 1]), edi, Fill(ecx, 0)) == Blit(m, d, Padded(Cut(m, src, n), n))
  {
    BlitTwice(m, d, m[src..src + l + 1], Fill(ecx, 0));
    PaddedText(m, src, n, l);
  }

  lemma PaddedText(m: Memory, src: nat, n: nat, l: nat)
    requires Readable(m, src, n) && CutLen(m, src, n) == l < n
    ensures m[src..src + l + 1] + Fill(n - l - 1, 0) == Padded(Cut(m, src, n), n)
  {
    var text, copied, rest := Cut(m, src, n), m[src..src + l + 1], Fill(n - l - 1, 0);
    forall k | 0 <= k < n ensures (copied + rest)[k] == Padded(text, n)[k] {
      if k < l {
        assert copied[k] == m[src + k] == text[k];
      } else if k == l {
        assert copied[l] == m[src + l] == 0;
      }
    }
  }

  /** Exactly as many bytes as the count says: the cut string, filled up with NULs. */
  method Strncpy(cpu: Machine, dest: word, src: word, count: word) returns (res: word)
    requires cpu.Fits() && Readable(cpu.mem[..], src, Rounds(count))
    requires dest + Rounds(count) <= cpu.mem.Length
    requires Undisturbed(src, ReadCount(cpu.mem[..], src, Rounds(count)), dest)
    modifies cpu, cpu.mem
    ensures res == dest && !cpu.df
    ensures var m, n := old(cpu.mem[..]), Rounds(count);
            cpu.mem[..] == Blit(m, dest, Padded(Cut(m, src, n), n))
  {
    ghost var m, n := cpu.mem[..], Rounds(count);
    cpu.df := false;
    assert cpu.mem[..] == m;
    ghost var l := CutLen(m, src, n);
    var edi, ecx, expired := CopyCounted(cpu, src, dest, count, m, l);
    if expired {
      PaddedWhenCut(m, src, n, l);
    } else {
      PaddedInTwo(m, src, dest, n, l, edi, ecx);
      edi, ecx := cpu.RepStosb(0, edi, ecx);
    }
    res := dest;
  }

  lemma AppendedBlit(m: Memory, src: nat, d: nat, n: nat)
    requires Readable(m, src, n) && d + ReadCount(m, src, n) < |m|
    ensures var r := ReadCount(m, src, n);
            Blit(m, d, m[src..src + r])[d + r := 0] == Blit(m, d, Appended(Cut(m, src, n), n))
  {
    BlitAppend(m, d, m[src..src + ReadCount(m, src, n)], 0);
    AppendedText(m, src, n);
  }

  lemma AppendedText(m: Memory, src: nat, n: nat)
    requires Readable(m, src, n)
    ensures m[src..src + ReadCount(m, src, n)] + [0] == Appended(Cut(m, src, n), n)
  {
    var text, r := Cut(m, src, n), ReadCount(m, src, n);
    var copied := m[src..src + r];
    forall k | 0 <= k < r ensures copied[k] == Appended(text, n)[k] {
      assert copied[k] == m[src + k];
      if k < |text| {
        assert text[k] == m[src + k];
      }
    }
  }

  /** strncat from label 1 on: the counted copy and the NUL behind it. */
  method AppendCounted(cpu: Machine, src: word, edi: word, count: word, ghost m: Memory)
    requires cpu.Fits() && !cpu.df && m == cpu.mem[..] && Readable(m, src, Rounds(count))
    requires edi + ReadCount(m, src, Rounds(count)) < |m|
    requires Undisturbed(src, ReadCount(m, src, Rounds(count)), edi)
    modifies cpu`zf, cpu`sf, cpu`lt, cpu.mem
    ensures var n := Rounds(count);
            cpu.mem[..] == Blit(m, edi, Appended(Cut(m, src, n), n))
  {
    ghost var n := Rounds(count);
    AppendedBlit(m, src, edi, n);
    var edi', ecx, expired := CopyCounted(cpu, src, edi, count, m, CutLen(m, src, n));
    edi' := cpu.Stosb(0, edi');
  }

  /**
   * The cut string and a NUL; after a NUL that was copied from src a second one is
   * written, so that as many as count + 1 and as few as strlen(src) + 2 bytes change.
   */
  method Strncat(cpu: Machine, dest: word, src: word, count: word) returns (res: word)
    requires cpu.Fits() && Terminated(cpu.mem[..], dest) && Readable(cpu.mem[..], src, Rounds(count))
    requires EndOf(cpu.mem[..], dest) + ReadCount(cpu.mem[..], src, Rounds(count)) < cpu.mem.Length
    requires Undisturbed(src, ReadCount(cpu.mem[..], src, Rounds(count)), EndOf(cpu.mem[..], dest))
    modifies cpu, cpu.mem
    ensures res == dest && !cpu.df
    ensures var m, n := old(cpu.mem[..]), Rounds(count);
            cpu.mem[..] == Blit(m, EndOf(m, dest), Appended(Cut(m, src, n), n))
  {
    ghost var m := cpu.mem[..];
    cpu.df := false;
    assert cpu.mem[..] == m;
    var edi := FindEnd(cpu, dest);
    assert cpu.mem[..] == m && edi == EndOf(m, dest);
    AppendCounted(cpu, src, edi, count, m);
    res := dest;
  }

  /** What strncat writes over the old terminator and behind it for a text cut at n bytes. */
  function Appended(text: seq<byte>, n: nat): (s: seq<byte>)
    requires |text| <= n
    ensures |s| == if |text| + 2 <= n + 1 then |text| + 2 else n + 1
  {
    if |text| < n then text + [0] + [0] else text + [0]
  }

  /** Section 7.21.3.2 of ISO/IEC 9899:1999 has strncat write the cut text and one NUL. */
  lemma SecondNulIff(m: Memory, e: nat, text: seq<byte>, n: nat, q: nat)
    requires |text| <= n && e + |Appended(text, n)| <= |m| && q == e + |text| + 1
    ensures Blit(m, e, Appended(text, n)) == Blit(m, e, text + [0]) <==> |text| == n || m[q] == 0
  {
    var a, b := Blit(m, e, Appended(text, n)), Blit(m, e, text + [0]);
    if |text| < n {
      assert a[q] == 0 && b[q] == m[q];
      if m[q] == 0 {
        forall k | 0 <= k < |m| ensures a[k] == b[k] {
          assert k == q || Appended(text, n)[..|text| + 1] == text + [0];
        }
      }
    } else {
      assert Appended(text, n) == text + [0];
    }
  }

  /**
   * strncat leaves the memory that the standard asks for exactly when the count ends the
   * copy or the byte behind the terminator it writes, at q, is NUL already.
   */
  lemma StrncatIsStandardIff(m: Memory, dest: nat, src: nat, n: nat, q: nat)
    requires Terminated(m, dest) && Readable(m, src, n) && EndOf(m, dest) + ReadCount(m, src, n) < |m|
    requires q == EndOf(m, dest) + CutLen(m, src, n) + 1
    ensures Blit(m, EndOf(m, dest), Appended(Cut(m, src, n), n)) == Blit(m, EndOf(m, dest), Cut(m, src, n) + [0])
            <==> CutLen(m, src, n) == n || m[q] == 0
  {
    SecondNulIff(m, EndOf(m, dest), Cut(m, src, n), n, q);
  }

  /** strncat(0, 4, 3) appends "A" to the empty string at 0 and overwrites the byte 9 behind it. */
  lemma StrncatWritesTooMuch(b: byte)
    ensures var m := [0, 7, 9, b, 65, 0];
            && Reads(m, 0, []) && Readable(m, 4, 3) && Cut(m, 4, 3) == [65] && EndOf(m, 0) == 0
            && Blit(m, 0, Appended(Cut(m, 4, 3), 3)) == [65, 0, 0, b, 65, 0]
            && Blit(m, 0, Cut(m, 4, 3) + [0]) == [65, 0, 9, b, 65, 0]
  {
    var m: Memory := [0, 7, 9, b, 65, 0];
    LenIs(m, 0, 0);
    assert m[4..][1] == 0;
    CutLenIs(m, 4, 3, 1);
    assert Cut(m, 4, 3) == [65];
  }

  /** A NUL-free text and a NUL written at d are the string d. */
  lemma WrittenString(m: Memory, d: nat, text: seq<byte>, written: seq<byte>)
    requires d + |written| <= |m| && 0 !in text
    requires |text| < |written| && written[..|text|] == text && written[|text|] == 0
    ensures Reads(Blit(m, d, written), d, text)
  {
    var m' := Blit(m, d, written);
    forall k | d <= k < d + |text| ensures m'[k] == text[k - d] && m'[k] != 0 {
      assert written[k - d] == text[k - d];
      assert text[k - d] in text;
    }
    LenIs(m', d, |text|);
  }

  /** The same written over the terminator of a string extends that string. */
  lemma ExtendedString(m: Memory, p: nat, text: seq<byte>, written: seq<byte>)
    requires Terminated(m, p) && EndOf(m, p) + |written| <= |m| && 0 !in text
    requires |text| < |written| && written[..|text|] == text && written[|text|] == 0
    ensures Reads(Blit(m, EndOf(m, p), written), p, Str(m, p) + text)
  {
    var e := EndOf(m, p);
    var m' := Blit(m, e, written);
    WrittenString(m, e, text, written);
    forall k | p <= k < e ensures m'[k] == m[k] != 0 {
      ByteOfString(m, p, k - p, k);
    }
    JoinedStrings(m', p, e, Str(m, p));
  }

  /** A NUL-free text right before a string makes one string with it. */
  lemma JoinedStrings(m: Memory, p: nat, e: nat, s: seq<byte>)
    requires Terminated(m, e) && e == p + |s|
    requires forall k :: p <= k < e ==> m[k] == s[k - p] && m[k] != 0
    ensures Reads(m, p, s + Str(m, e))
  {
    forall k | p <= k < EndOf(m, e) ensures m[k] != 0 {
      if k >= e { ByteOfString(m, e, k - e, k); }
    }
    LenIs(m, p, EndOf(m, e) - p);
  }

  /** strcat concatenates. */
  lemma StrcatText(m: Memory, dest: nat, src: nat)
    requires Terminated(m, dest) && Terminated(m, src) && EndOf(m, dest) + Len(m, src) < |m|
    ensures Reads(Blit(m, EndOf(m, dest), Zstr(m, src)), dest, Str(m, dest) + Str(m, src))
  {
    ExtendedString(m, dest, Str(m, src), Zstr(m, src));
  }

  /** strncat concatenates at most n bytes of src, whether or not the rest of src is terminated. */
  lemma StrncatText(m: Memory, dest: nat, src: nat, n: nat)
    requires Terminated(m, dest) && Readable(m, src, n) && EndOf(m, dest) + ReadCount(m, src, n) < |m|
    ensures Reads(Blit(m, EndOf(m, dest), Appended(Cut(m, src, n), n)), dest, Str(m, dest) + Cut(m, src, n))
  {
    ExtendedString(m, dest, Cut(m, src, n), Appended(Cut(m, src, n), n));
  }

  /** A text that is cut before the count ends has a NUL behind it, another has none. */
  lemma PaddedEnds(text: seq<byte>, n: nat)
    requires |text| <= n && 0 !in text
    ensures 0 in Padded(text, n) <==> |text| < n
    ensures |text| < n ==> Padded(text, n)[..|text|] == text && Padded(text, n)[|text|] == 0
  {
    if |text| < n { assert Padded(text, n)[|text|] == 0; }
  }

  /** What is read behind a copy of n bytes padded with NULs. */
  lemma PaddedCopy(m: Memory, dest: nat, text: seq<byte>, n: nat, end: nat)
    requires |text| <= n && 0 !in text && end == dest + n <= |m|
    ensures var m' := Blit(m, dest, Padded(text, n));
            && (0 in m'[dest..end] <==> |text| < n)
            && (|text| < n ==> Reads(m', dest, text))
  {
    var written := Padded(text, n);
    PaddedEnds(text, n);
    BlitThere(m, dest, written, end);
    if |text| < n { WrittenString(m, dest, text, written); }
  }

  lemma BlitThere(m: Memory, d: nat, s: seq<byte>, end: nat)
    requires end == d + |s| <= |m|
    ensures Blit(m, d, s)[d..end] == s
  {
  }

  /** strncpy leaves the string src at dest exactly when the count exceeds its length. */
  lemma StrncpyIsStringIff(m: Memory, dest: nat, src: nat, n: nat, end: nat)
    requires Terminated(m, src) && end == dest + n <= |m|
    ensures Readable(m, src, n)
    ensures 0 in Blit(m, dest, Padded(Cut(m, src, n), n))[dest..end] <==> n > Len(m, src)
    ensures n > Len(m, src) ==> Reads(Blit(m, dest, Padded(Cut(m, src, n), n)), dest, Str(m, src))
  {
    CutOfString(m, src, n);
    PaddedCopy(m, dest, Cut(m, src, n), n, end);
  }
}
