/** strtok: one call, on the machine and as a function of memory and the saved position. */
module Tokenizer {
  import opened Bytes
  import opened CStrings
  import opened Cpu
  import opened StringSets

  /** The global ___strtok. */
  class Globals {
    var strtok: word

    constructor ()
      ensures strtok == NULL
    {
      strtok := NULL;
    }
  }

  /** What a call leaves behind: memory, ___strtok and the result. */
  datatype Outcome = Outcome(m: Memory, tok: nat, res: nat)

  /** The address of the first byte at or after p that is not a delimiter. */
  function SkipDelimiters(m: Memory, p: nat, delims: seq<byte>): (q: nat)
    requires Terminated(m, p)
    ensures p <= q && Terminated(m, q) && EndOf(m, q) == EndOf(m, p)
  {
    var n := SpanLen(Str(m, p), delims, true);
    Suffix(m, p, n);
    p + n
  }

  /** The address of the first delimiter at or after p, or of the terminator. */
  function FindDelimiter(m: Memory, p: nat, delims: seq<byte>): (q: nat)
    requires Terminated(m, p)
    ensures p <= q <= EndOf(m, p)
  {
    p + SpanLen(Str(m, p), delims, false)
  }

  /** The effect of ending the token that starts at p. */
  function Finish(m: Memory, p: nat, delims: seq<byte>): Outcome
    requires Terminated(m, p)
  {
    var q := FindDelimiter(m, p, delims);
    if q == EndOf(m, p) then Outcome(m, NULL, p) else Outcome(m[q := 0], q + 1, p)
  }

  /** The effect of tokenizing from a non-null position. */
  function Tokenize(m: Memory, at: nat, delims: seq<byte>): Outcome
    requires Terminated(m, at)
  {
    var p := SkipDelimiters(m, at, delims);
    if delims == [] || m[p] == 0 then Outcome(m, NULL, NULL) else Finish(m, p, delims)
  }

  /** What a call demands: a string to work on, unless there is none at all, and delimiters. */
  predicate Callable(m: Memory, tok: nat, s: nat, ct: nat) {
    s != NULL || tok != NULL ==> Terminated(m, ct) && Terminated(m, if s != NULL then s else tok)
  }

  function Call(m: Memory, tok: nat, s: nat, ct: nat): Outcome
    requires Callable(m, tok, s, ct)
  {
    if s == NULL && tok == NULL then Outcome(m, NULL, NULL)
    else Tokenize(m, if s != NULL then s else tok, Str(m, ct))
  }

  /** The end q of the token at p. */
  lemma TokenEnd(m: Memory, p: nat, delims: seq<byte>, q: nat)
    requires Terminated(m, p) && m[p] != 0 && m[p] !in delims && q == FindDelimiter(m, p, delims)
    ensures p < q <= EndOf(m, p) && (m[q] == 0 <==> q == EndOf(m, p))
    ensures q - p == SpanLen(Str(m, p), delims, false)
    ensures Finish(m, p, delims) == if q == EndOf(m, p) then Outcome(m, NULL, p) else Outcome(m[q := 0], q + 1, p)
  {
    ByteOfString(m, p, 0, p);
    ByteOfString(m, p, q - p, q);
  }

  /** movb $0,(%esi); incl %esi. */
  method Overwrite(cpu: Machine, esi: word) returns (esi': word)
    requires cpu.Fits() && esi < cpu.mem.Length
    modifies cpu`zf, cpu`sf, cpu`lt, cpu.mem
    ensures cpu.mem[..] == old(cpu.mem[..])[esi := 0] && esi' == esi + 1
  {
    cpu.mem[esi] := 0;
    esi' := cpu.Incl(esi);
  }

  /** Labels 3 to 6, for a token that starts at ebx: both registers at label 7. */
  method EndToken(cpu: Machine, ebx: word, ct: word, edx: word, ghost m: Memory) returns (ebx': word, esi: word)
    requires cpu.Fits() && !cpu.df && m == cpu.mem[..] && Terminated(m, ebx) && Terminated(m, ct)
    requires edx == Len(m, ct) && m[ebx] != 0 && m[ebx] !in Str(m, ct)
    modifies cpu`zf, cpu`sf, cpu`lt, cpu.mem
    ensures var o := Finish(m, ebx, Str(m, ct)); cpu.mem[..] == o.m && esi == o.tok && ebx' == o.res
  {
    ghost var delims, q := Str(m, ct), FindDelimiter(m, ebx, Str(m, ct));
    TokenEnd(m, ebx, delims, q);
    var atEnd;
    esi, atEnd := ScanSpan(cpu, ebx, ct, edx, false, m);
    assert cpu.mem[..] == m;
    ebx' := ebx;
    if !atEnd {
      esi := cpu.Decl(esi);
      assert esi == q;
      cpu.TestByte(cpu.mem[esi]);
      atEnd := cpu.zf;
      if !atEnd {
        assert cpu.mem[..] == m;
        esi := Overwrite(cpu, esi);
      }
    }
    if atEnd { esi := NULL; }
    cpu.TestByte(cpu.mem[ebx]);
    if cpu.zf { ebx' := NULL; }
  }

  /** Where the token starts: the byte that the skipping loop stops at. */
  lemma TokenStart(m: Memory, start: nat, delims: seq<byte>, p: nat, o: Outcome)
    requires Terminated(m, start) && p == SkipDelimiters(m, start, delims) && delims != []
    requires o == Tokenize(m, start, delims)
    ensures p - start == SpanLen(Str(m, start), delims, true) && p < |m|
    ensures m[p] == 0 <==> p == EndOf(m, start)
    ensures m[p] == 0 ==> o == Outcome(m, NULL, NULL)
    ensures m[p] != 0 ==> Terminated(m, p) && m[p] !in delims && o == Finish(m, p, delims)
  {
    ByteOfString(m, start, p - start, p);
  }

  /** Labels 2 to 6, for a set of length edx > 0: the registers ebx and esi at label 7. */
  method TokenizeFrom(cpu: Machine, start: word, ct: word, edx: word) returns (ebx: word, esi: word)
    requires cpu.Fits() && !cpu.df && start != NULL && Terminated(cpu.mem[..], start) && Terminated(cpu.mem[..], ct)
    requires edx == Len(cpu.mem[..], ct) && edx > 0
    modifies cpu`zf, cpu`sf, cpu`lt, cpu.mem
    ensures var o := Tokenize(old(cpu.mem[..]), start, Str(old(cpu.mem[..]), ct));
            ebx == o.res && (ebx != NULL ==> esi == o.tok) && cpu.mem[..] == o.m
  {
    ghost var m := cpu.mem[..];
    ghost var delims, p := Str(m, ct), SkipDelimiters(m, start, Str(m, ct));
    ghost var o := Tokenize(m, start, delims);
    TokenStart(m, start, delims, p, o);
    ebx := NULL;
    var atEnd;
    esi, atEnd := ScanSpan(cpu, start, ct, edx, true, m);
    if atEnd { return; }
    esi := cpu.Decl(esi);
    assert esi == p;
    cpu.TestByte(cpu.mem[esi]);
    if cpu.zf { return; }
    ebx := esi;
    assert cpu.mem[..] == m;
    ebx, esi := EndToken(cpu, ebx, ct, edx, m);
  }

  /** Without a result nothing is changed and nothing is saved. */
  lemma NoToken(m: Memory, start: nat, delims: seq<byte>, o: Outcome)
    requires start != NULL && Terminated(m, start) && o == Tokenize(m, start, delims)
    ensures delims == [] || o.res == NULL ==> o == Outcome(m, NULL, NULL)
  {
  }

  /** Label 1 to the end, for the string at esi: the registers ebx and esi at label 8. */
  method TokenizeString(cpu: Machine, start: word, ct: word) returns (ebx: word, esi: word)
    requires cpu.Fits() && start != NULL && Terminated(cpu.mem[..], start) && Terminated(cpu.mem[..], ct)
    modifies cpu, cpu.mem
    ensures Outcome(cpu.mem[..], esi, ebx) == Tokenize(old(cpu.mem[..]), start, Str(old(cpu.mem[..]), ct))
  {
    ghost var m := cpu.mem[..];
    ghost var o := Tokenize(m, start, Str(m, ct));
    NoToken(m, start, Str(m, ct), o);
    ebx, esi := NULL, start;
    cpu.df := false;
    assert cpu.mem[..] == m;
    var edx := Measure(cpu, ct);
    assert cpu.mem[..] == m;
    if !cpu.zf {
      ebx, esi := TokenizeFrom(cpu, esi, ct, edx);
    }
    cpu.TestWord(ebx);
    if cpu.zf { esi := ebx; }
    assert cpu.mem[..] == o.m && esi == o.tok && ebx == o.res;
  }

  method Strtok(cpu: Machine, g: Globals, s: word, ct: word) returns (res: word)
    requires cpu.Fits() && Callable(cpu.mem[..], g.strtok, s, ct)
    modifies cpu, g, cpu.mem
    ensures Outcome(cpu.mem[..], g.strtok, res) == Call(old(cpu.mem[..]), old(g.strtok), s, ct)
  {
    var ebx, esi := g.strtok, s;
    cpu.TestWord(esi);
    if cpu.zf {
      cpu.TestWord(ebx);
      if cpu.zf {
        g.strtok := esi;
        return ebx;
      }
      esi := ebx;
    }
    assert cpu.mem[..] == old(cpu.mem[..]);
    ebx, esi := TokenizeString(cpu, esi, ct);
    g.strtok := esi;
    res := ebx;
  }
}
