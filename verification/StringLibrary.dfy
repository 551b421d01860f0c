/**
 * Sequences of calls of the whole library as functions of memory and ___strtok alone:
 * whatever the direction flag, and all other flags, were at the start.
 */
module StringLibrary {
  import opened Bytes
  import opened CStrings
  import opened Cpu
  import opened Orders
  import opened StringSets
  import opened StringCompare
  import opened StringSearch
  import opened BlockCopy
  import opened StringCopy
  import opened Tokenizer

  datatype ReadCall =
    | CallStrlen(s: word)
    | CallStrspn(cs: word, ct: word) | CallStrcspn(cs: word, ct: word) | CallStrpbrk(cs: word, ct: word)
    | CallStrstr(cs: word, ct: word) | CallStrchr(s: word, c: byte) | CallStrrchr(s: word, c: byte)
    | CallStrcmp(cs: word, ct: word) | CallStrncmp(cs: word, ct: word, count: word)
    | CallMemcmp(cs: word, ct: word, count: word) | CallMemchr(s: word, c: byte, count: word)

  datatype WriteCall =
    | CallStrcpy(dest: word, src: word) | CallStrncpy(dest: word, src: word, count: word)
    | CallStrcat(dest: word, src: word) | CallStrncat(dest: word, src: word, count: word)
    | CallMemcpy(dest: word, src: word, count: word) | CallMemmove(dest: word, src: word, count: word)
    | CallMemset(dest: word, c: byte, count: word)

  datatype LibraryCall = Read(r: ReadCall) | Write(w: WriteCall) | CallStrtok(s: word, ct: word)

  predicate ReadAllowed(c: ReadCall, m: Memory) {
    match c
    case CallStrlen(s) => Terminated(m, s)
    case CallStrspn(cs, ct) => Terminated(m, cs) && Terminated(m, ct)
    case CallStrcspn(cs, ct) => Terminated(m, cs) && Terminated(m, ct)
    case CallStrpbrk(cs, ct) => Terminated(m, cs) && Terminated(m, ct)
    case CallStrstr(cs, ct) => Terminated(m, cs) && Terminated(m, ct)
    case CallStrchr(s, _) => Terminated(m, s)
    case CallStrrchr(s, _) => Terminated(m, s)
    case CallStrcmp(cs, ct) => Terminated(m, cs) && Terminated(m, ct)
    case CallStrncmp(cs, ct, n) => Readable(m, cs, Rounds(n)) && Readable(m, ct, Rounds(n))
    case CallMemcmp(cs, ct, n) => n > 0 && cs + n <= |m| && ct + n <= |m|
    case CallMemchr(s, c, n) => s <= |m| && (s + n <= |m| || c in m[s..])
  }

  function ReadResult(c: ReadCall, m: Memory): int
    requires |m| < WORD_LIMIT && ReadAllowed(c, m)
  {
    match c
    case CallStrlen(s) => Int32(Len(m, s))
    case CallStrspn(cs, ct) => Int32(SpanLen(Str(m, cs), Str(m, ct), true))
    case CallStrcspn(cs, ct) => Int32(SpanLen(Str(m, cs), Str(m, ct), false))
    case CallStrpbrk(cs, ct) =>
      var n := SpanLen(Str(m, cs), Str(m, ct), false);
      if n == Len(m, cs) then NULL else cs + n
    case CallStrstr(cs, ct) =>
      var i := FirstMatch(Str(m, cs), Str(m, ct), 0);
      if i < 0 then NULL else cs + i
    case CallStrchr(s, b) => if b in Zstr(m, s) then s + IndexOf(Zstr(m, s), b) else NULL
    case CallStrrchr(s, b) => if b in Zstr(m, s) then s + LastIndexOf(Zstr(m, s), b) else NULL
    case CallStrcmp(cs, ct) => Order(true, Zstr(m, cs), Zstr(m, ct))
    case CallStrncmp(cs, ct, n) => CutOrder(m, cs, ct, Rounds(n))
    case CallMemcmp(cs, ct, n) => Order(true, m[cs..cs + n], m[ct..ct + n])
    case CallMemchr(s, b, n) =>
      var i := IndexOf(m[s..], b);
      if i < n && s + i < |m| then s + i else NULL
  }

  method InvokeSets(cpu: Machine, c: ReadCall) returns (res: int)
    requires c.CallStrlen? || c.CallStrspn? || c.CallStrcspn? || c.CallStrpbrk?
    requires cpu.Fits() && ReadAllowed(c, cpu.mem[..])
    modifies cpu
    ensures res == ReadResult(c, cpu.mem[..])
  {
    match c {
      case CallStrlen(s) => res := Strlen(cpu, s);
      case CallStrspn(cs, ct) => res := Strspn(cpu, cs, ct);
      case CallStrcspn(cs, ct) => res := Strcspn(cpu, cs, ct);
      case CallStrpbrk(cs, ct) => res := Strpbrk(cpu, cs, ct);
    }
  }

  method InvokeSearch(cpu: Machine, c: ReadCall) returns (res: int)
    requires c.CallStrstr? || c.CallStrchr? || c.CallStrrchr? || c.CallMemchr?
    requires cpu.Fits() && ReadAllowed(c, cpu.mem[..])
    modifies cpu
    ensures res == ReadResult(c, cpu.mem[..])
  {
    match c {
      case CallStrstr(cs, ct) =>
        ghost var top;
        res, top := Strstr(cpu, cs, ct);
      case CallStrchr(s, b) => res := Strchr(cpu, s, b);
      case CallStrrchr(s, b) => res := Strrchr(cpu, s, b);
      case CallMemchr(s, b, n) =>
        assert cpu.mem[..][s..] == cpu.mem[s..];
        res := Memchr(cpu, s, b, n);
    }
  }

  method InvokeCompare(cpu: Machine, c: ReadCall) returns (res: int)
    requires c.CallStrcmp? || c.CallStrncmp? || c.CallMemcmp?
    requires cpu.Fits() && ReadAllowed(c, cpu.mem[..])
    modifies cpu
    ensures res == ReadResult(c, cpu.mem[..])
  {
    match c {
      case CallStrcmp(cs, ct) => res := Strcmp(cpu, cs, ct);
      case CallStrncmp(cs, ct, n) => res := Strncmp(cpu, cs, ct, n);
      case CallMemcmp(cs, ct, n) =>
        assert cpu.mem[..][cs..cs + n] == cpu.mem[cs..cs + n];
        assert cpu.mem[..][ct..ct + n] == cpu.mem[ct..ct + n];
        res := Memcmp(cpu, cs, ct, n);
    }
  }

  method InvokeRead(cpu: Machine, c: ReadCall) returns (res: int)
    requires cpu.Fits() && ReadAllowed(c, cpu.mem[..])
    modifies cpu
    ensures res == ReadResult(c, cpu.mem[..])
  {
    if c.CallStrlen? || c.CallStrspn? || c.CallStrcspn? || c.CallStrpbrk? {
      res := InvokeSets(cpu, c);
    } else if c.CallStrcmp? || c.CallStrncmp? || c.CallMemcmp? {
      res := InvokeCompare(cpu, c);
    } else {
      res := InvokeSearch(cpu, c);
    }
  }

  predicate WriteAllowed(c: WriteCall, m: Memory) {
    match c
    case CallStrcpy(d, s) => Terminated(m, s) && d + Len(m, s) < |m| && Undisturbed(s, Len(m, s) + 1, d)
    case CallStrncpy(d, s, n) =>
      Readable(m, s, Rounds(n)) && d + Rounds(n) <= |m| && Undisturbed(s, ReadCount(m, s, Rounds(n)), d)
    case CallStrcat(d, s) =>
      && Terminated(m, d) && Terminated(m, s) && EndOf(m, d) + Len(m, s) < |m|
      && Undisturbed(s, Len(m, s) + 1, EndOf(m, d))
    case CallStrncat(d, s, n) =>
      && Terminated(m, d) && Readable(m, s, Rounds(n)) && EndOf(m, d) + ReadCount(m, s, Rounds(n)) < |m|
      && Undisturbed(s, ReadCount(m, s, Rounds(n)), EndOf(m, d))
    case CallMemcpy(d, s, n) => s + n <= |m| && d + n <= |m|
    case CallMemmove(d, s, n) => s + n <= |m| && d + n <= |m|
    case CallMemset(d, _, n) => d + n <= |m|
  }

  function WriteEffect(c: WriteCall, m: Memory): Memory
    requires WriteAllowed(c, m)
  {
    match c
    case CallStrcpy(d, s) => Blit(m, d, Zstr(m, s))
    case CallStrncpy(d, s, n) => Blit(m, d, Padded(Cut(m, s, Rounds(n)), Rounds(n)))
    case CallStrcat(d, s) => Blit(m, EndOf(m, d), Zstr(m, s))
    case CallStrncat(d, s, n) => Blit(m, EndOf(m, d), Appended(Cut(m, s, Rounds(n)), Rounds(n)))
    case CallMemcpy(d, s, n) => Blit(m, d, CopiedBytes(m, s, d, n))
    case CallMemmove(d, s, n) => Blit(m, d, m[s..s + n])
    case CallMemset(d, b, n) => Blit(m, d, Fill(n, b))
  }

  /** Every routine that writes returns its first argument. */
  method InvokeWrite(cpu: Machine, c: WriteCall) returns (res: word)
    requires cpu.Fits() && WriteAllowed(c, cpu.mem[..])
    modifies cpu, cpu.mem
    ensures cpu.mem[..] == WriteEffect(c, old(cpu.mem[..])) && res == c.dest
  {
    match c {
      case CallStrcpy(d, s) => res := Strcpy(cpu, d, s);
      case CallStrncpy(d, s, n) => res := Strncpy(cpu, d, s, n);
      case CallStrcat(d, s) => res := Strcat(cpu, d, s);
      case CallStrncat(d, s, n) => res := Strncat(cpu, d, s, n);
      case CallMemcpy(d, s, n) => res := Memcpy(cpu, d, s, n);
      case CallMemmove(d, s, n) => res := Memmove(cpu, d, s, n);
      case CallMemset(d, b, n) => res := Memset(cpu, d, b, n);
    }
  }

  /** Memory, ___strtok and the results so far. */
  datatype World = World(m: Memory, tok: nat, results: seq<int>)

  predicate Allowed(c: LibraryCall, w: World) {
    match c
    case Read(r) => ReadAllowed(r, w.m)
    case Write(x) => WriteAllowed(x, w.m)
    case CallStrtok(s, ct) => Callable(w.m, w.tok, s, ct)
  }

  function After(c: LibraryCall, w: World): World
    requires |w.m| < WORD_LIMIT && Allowed(c, w)
  {
    match c
    case Read(r) => w.(results := w.results + [ReadResult(r, w.m)])
    case Write(x) => w.(m := WriteEffect(x, w.m), results := w.results + [x.dest])
    case CallStrtok(s, ct) =>
      var o := Call(w.m, w.tok, s, ct);
      World(o.m, o.tok, w.results + [o.res])
  }

  /** All preconditions along a sequence of calls hold. */
  predicate AllAllowed(cs: seq<LibraryCall>, w: World)
    decreases |cs|
  {
    cs == [] || (|w.m| < WORD_LIMIT && Allowed(cs[0], w) && AllAllowed(cs[1..], After(cs[0], w)))
  }

  function AfterAll(cs: seq<LibraryCall>, w: World): World
    requires AllAllowed(cs, w)
    decreases |cs|
  {
    if cs == [] then w else AfterAll(cs[1..], After(cs[0], w))
  }

  method Invoke(cpu: Machine, g: Globals, c: LibraryCall, ghost w: World) returns (res: int)
    requires cpu.Fits() && w.m == cpu.mem[..] && w.tok == g.strtok && Allowed(c, w)
    modifies cpu, g, cpu.mem
    ensures World(cpu.mem[..], g.strtok, w.results + [res]) == After(c, w)
  {
    match c {
      case Read(r) => res := InvokeRead(cpu, r);
      case Write(x) => res := InvokeWrite(cpu, x);
      case CallStrtok(s, ct) => res := Strtok(cpu, g, s, ct);
    }
  }

  method InvokeAll(cpu: Machine, g: Globals, cs: seq<LibraryCall>) returns (results: seq<int>)
    requires cpu.Fits() && AllAllowed(cs, World(cpu.mem[..], g.strtok, []))
    modifies cpu, g, cpu.mem
    ensures World(cpu.mem[..], g.strtok, results) == AfterAll(cs, old(World(cpu.mem[..], g.strtok, [])))
  {
    results := [];
    ghost var w := World(cpu.mem[..], g.strtok, []);
    ghost var end := AfterAll(cs, w);
    var rest := cs;
    while rest != []
      invariant w == World(cpu.mem[..], g.strtok, results)
      invariant AllAllowed(rest, w) && AfterAll(rest, w) == end
      decreases |rest|
    {
      var res := Invoke(cpu, g, rest[0], w);
      results := results + [res];
      w := After(rest[0], w);
      rest := rest[1..];
    }
  }

  /**
   * Two machines that differ in their flags only, the direction flag included, end a
   * sequence of calls with the same results, the same memory and the same ___strtok.
   */
  method FlagsDoNotMatter(a: Machine, ga: Globals, b: Machine, gb: Globals, cs: seq<LibraryCall>)
    returns (ra: seq<int>, rb: seq<int>)
    requires a != b && ga != gb && a.mem != b.mem && a.Fits() && b.Fits()
    requires a.mem[..] == b.mem[..] && ga.strtok == gb.strtok
    requires AllAllowed(cs, World(a.mem[..], ga.strtok, []))
    modifies a, ga, a.mem, b, gb, b.mem
    ensures ra == rb && a.mem[..] == b.mem[..] && ga.strtok == gb.strtok
  {
    ghost var w := World(a.mem[..], ga.strtok, []);
    ra := InvokeAll(a, ga, cs);
    assert World(b.mem[..], gb.strtok, []) == w;
    rb := InvokeAll(b, gb, cs);
  }
}
