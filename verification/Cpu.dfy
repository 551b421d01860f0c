/**
 * The part of an i386 that the inline assembly of include/string.h drives: byte
 * memory, the flags that its jumps read, the direction flag, and the string
 * instructions. Registers are local variables of the routines, handed to an
 * instruction and assigned from it. A location is an index into mem; NULL is 0.
 */
module Cpu {
  import opened Bytes
  import opened CStrings

  const NULL: word := 0

  /** A comparison of n byte pairs stays inside memory: both blocks do, or pair number stop differs. */
  predicate Bounded(m: Memory, a: nat, b: nat, n: nat, stop: nat) {
    (a + n <= |m| && b + n <= |m|) || (a + stop < |m| && b + stop < |m| && m[a + stop] != m[b + stop])
  }

  lemma AgreementGoesOn(m: Memory, a: nat, b: nat, k: nat, n: nat, stop: nat)
    requires Bounded(m, a, b, n, stop) && k < n && a + k < |m| && b + k < |m|
    requires Agree(m, a, b, k) && m[a + k] == m[b + k]
    ensures Agree(m, a, b, k + 1)
    ensures k + 1 < n ==> a + k + 1 < |m| && b + k + 1 < |m|
  {
    AgreeOneMore(m, a, b, k);
    if stop <= k { AgreeAt(m, a, b, k + 1, stop); }
  }

  class Machine {
    const mem: array<byte>
    var zf: bool
    var sf: bool
    var lt: bool  // SF != OF, what jl tests
    var df: bool

    constructor (mem: array<byte>)
      ensures this.mem == mem
    {
      this.mem := mem;
    }

    /** No address of a byte in memory wraps around when it is incremented. */
    predicate Fits() {
      mem.Length < WORD_LIMIT
    }

    method SetFlags(zero: bool, sign: bool, less: bool)
      modifies this`zf, this`sf, this`lt
      ensures zf == zero && sf == sign && lt == less
    {
      zf, sf, lt := zero, sign, less;
    }

    /** decl: wraps below zero and sets the flags. */
    method Decl(v: word) returns (r: word)
      modifies this`zf, this`sf, this`lt
      ensures r == if v == 0 then ALL_ONES else v - 1
      ensures zf == (r == 0) && sf == Negative(r) && lt == (Int32(v) < 1)
    {
      r := if v == 0 then ALL_ONES else v - 1;
      SetFlags(r == 0, Negative(r), Negative(r) != (v == 0x8000_0000));
    }

    /** incl: wraps above the largest word and sets the flags. */
    method Incl(v: word) returns (r: word)
      modifies this`zf, this`sf, this`lt
      ensures r == if v == ALL_ONES then 0 else v + 1
      ensures zf == (v == ALL_ONES) && sf == Negative(r) && lt == (Int32(v) < -1)
    {
      r := if v == ALL_ONES then 0 else v + 1;
      SetFlags(r == 0, Negative(r), Negative(r) != (v == 0x7fff_ffff));
    }

    /** testb %al,%al, and cmpb $0 on a byte of memory. */
    method TestByte(b: byte)
      modifies this`zf, this`sf, this`lt
      ensures zf == (b == 0)
    {
      SetFlags(b == 0, Signed8(b) < 0, Signed8(b) < 0);
    }

    /** testl of a register with itself. */
    method TestWord(w: word)
      modifies this`zf, this`sf, this`lt
      ensures zf == (w == 0) && sf == lt == (w >= 0x8000_0000)
    {
      SetFlags(w == 0, Negative(w), Negative(w));
    }

    /** cmpb: the flags of a - b. */
    method CompareBytes(a: byte, b: byte)
      modifies this`zf, this`sf, this`lt
      ensures zf == (a == b) && sf == (-0x80 <= a - b < 0 || a - b >= 0x80)
      ensures lt == (Signed8(a) < Signed8(b))
    {
      SetFlags(a == b, (a - b) % 256 >= 128, Signed8(a) < Signed8(b));
    }

    method Lodsb(esi: word) returns (al: byte, esi': word)
      requires Fits() && !df && esi < mem.Length
      ensures al == mem[esi] && esi' == esi + 1
    {
      al, esi' := mem[esi], esi + 1;
    }

    method Stosb(al: byte, edi: word) returns (edi': word)
      requires Fits() && !df && edi < mem.Length
      modifies mem
      ensures mem[..] == old(mem[..])[edi := al]
      ensures edi' == edi + 1
    {
      mem[edi] := al;
      edi' := edi + 1;
    }

    method Scasb(al: byte, edi: word) returns (edi': word)
      requires Fits() && !df && edi < mem.Length
      modifies this`zf, this`sf, this`lt
      ensures edi' == edi + 1
      ensures zf == (al == mem[edi])
      ensures lt == (Signed8(al) < Signed8(mem[edi]))
    {
      CompareBytes(al, mem[edi]);
      edi' := edi + 1;
    }

    /** repne scasb: nothing happens, not even to the flags, when ecx is 0. */
    method RepneScasb(al: byte, edi: word, ecx: word) returns (edi': word, ecx': word)
      requires Fits() && !df && edi <= mem.Length
      requires edi + ecx <= mem.Length || al in mem[edi..]
      modifies this`zf, this`sf, this`lt
      ensures edi <= edi' <= mem.Length && ecx' == ecx - (edi' - edi)
      ensures ecx == 0 ==> zf == old(zf)
      ensures ecx > 0 ==> edi < edi' && zf == (mem[edi' - 1] == al) && (zf || ecx' == 0)
      ensures forall k :: edi <= k < edi' - 1 ==> mem[k] != al
    {
      edi', ecx' := edi, ecx;
      if ecx == 0 { return; }
      var last := mem[edi];
      edi', ecx' := edi + 1, ecx - 1;
      while ecx' != 0 && al != last
        invariant edi < edi' <= mem.Length && ecx' == ecx - (edi' - edi)
        invariant last == mem[edi' - 1]
        invariant forall k :: edi <= k < edi' - 1 ==> mem[k] != al
        decreases ecx'
      {
        last, edi', ecx' := mem[edi'], edi' + 1, ecx' - 1;
      }
      CompareBytes(al, last);
    }

    /**
     * repe cmpsb: compares (esi) with (edi) while they are equal and ecx lasts; n
     * pairs are equal. The run ends inside memory because both blocks do, or because
     * the pair number stop is known to differ.
     */
    method RepeCmpsb(esi: word, edi: word, ecx: word, ghost stop: nat)
      returns (esi': word, edi': word, ecx': word, ghost n: nat)
      requires Fits() && !df
      requires Bounded(mem[..], esi, edi, ecx, stop)
      modifies this`zf, this`sf, this`lt
      ensures n <= ecx && esi + n <= mem.Length && edi + n <= mem.Length && Agree(mem[..], esi, edi, n)
      ensures var steps := if n == ecx then n else n + 1;
              esi' == esi + steps && edi' == edi + steps && ecx' == ecx - steps
      ensures ecx == 0 ==> zf == old(zf) && lt == old(lt)
      ensures ecx > 0 ==> zf == (n == ecx)
      ensures n < ecx ==> esi + n < mem.Length && edi + n < mem.Length && mem[esi + n] != mem[edi + n]
                          && lt == (Signed8(mem[esi + n]) < Signed8(mem[edi + n]))
    {
      esi', edi', ecx', n := esi, edi, ecx, 0;
      if ecx == 0 { return; }
      ghost var m := mem[..];
      var a, b := mem[esi], mem[edi];
      esi', edi', ecx' := esi + 1, edi + 1, ecx - 1;
      while ecx' != 0 && a == b
        invariant n < ecx && ecx' == ecx - n - 1
        invariant esi' == esi + n + 1 <= |m| && edi' == edi + n + 1 <= |m|
        invariant a == m[esi + n] && b == m[edi + n] && Agree(m, esi, edi, n)
        decreases ecx'
      {
        AgreementGoesOn(m, esi, edi, n, ecx, stop);
        n := n + 1;
        a, b := mem[esi'], mem[edi'];
        esi', edi', ecx' := esi' + 1, edi' + 1, ecx' - 1;
      }
      CompareBytes(a, b);
      if a == b {
        AgreeOneMore(m, esi, edi, n);
        n := n + 1;
      }
      assert mem[..] == m;
    }

    /** rep stosb. */
    method RepStosb(al: byte, edi: word, ecx: word) returns (edi': word, ecx': word)
      requires Fits() && !df && edi + ecx <= mem.Length
      modifies mem
      ensures mem[..] == Blit(old(mem[..]), edi, Fill(ecx, al))
      ensures edi' == edi + ecx && ecx' == 0
    {
      ghost var m := mem[..];
      edi', ecx' := edi, ecx;
      while ecx' != 0
        invariant ecx' <= ecx && edi' == edi + (ecx - ecx')
        invariant mem[..] == Blit(m, edi, Fill(ecx - ecx', al))
        decreases ecx'
      {
        BlitAppend(m, edi, Fill(ecx - ecx', al), al);
        assert Fill(ecx - ecx' + 1, al) == Fill(ecx - ecx', al) + [al];
        mem[edi'] := al;
        edi', ecx' := edi' + 1, ecx' - 1;
      }
    }

    /** The blocks of a string move begin at low and start; esi and edi point to their last bytes if DF is set. */
    ghost predicate Blocks(esi: word, edi: word, ecx: word, low: nat, start: nat)
      reads this
    {
      && low + ecx <= mem.Length && start + ecx <= mem.Length
      && if df then esi + 1 == low + ecx && edi + 1 == start + ecx else esi == low && edi == start
    }

    /** rep movsb, upwards or downwards as the direction flag says. */
    method RepMovsb(esi: word, edi: word, ecx: word, ghost low: nat, ghost start: nat)
      requires Fits() && (ecx > 0 ==> Blocks(esi, edi, ecx, low, start))
      modifies mem
      ensures ecx == 0 ==> mem[..] == old(mem[..])
      ensures ecx > 0 && !df ==> mem[..] == MoveUp(old(mem[..]), low, start, ecx)
      ensures ecx > 0 && df ==> mem[..] == MoveDown(old(mem[..]), low, start, ecx)
    {
      if ecx == 0 { return; }
      ghost var m := mem[..];
      var s: word, d: word, c: word := esi, edi, ecx;
      if df {
        while c != 0
          invariant 0 <= c <= ecx && (c > 0 ==> s + 1 == low + c && d + 1 == start + c)
          invariant MoveDown(m, low, start, ecx) == MoveDown(mem[..], low, start, c)
          decreases c
        {
          mem[d] := mem[s];
          s, d, c := Wrap(s - 1), Wrap(d - 1), c - 1;
        }
      } else {
        while c != 0
          invariant 0 <= c <= ecx && s == low + (ecx - c) && d == start + (ecx - c)
          invariant MoveUp(m, low, start, ecx) == MoveUp(mem[..], s, d, c)
          decreases c
        {
          mem[d] := mem[s];
          s, d, c := s + 1, d + 1, c - 1;
        }
      }
    }
  }
}
