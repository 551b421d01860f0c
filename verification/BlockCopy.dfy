/** memcpy, memmove and memset, for every overlap of source and destination. */
module BlockCopy {
  import opened Bytes
  import opened CStrings
  import opened Cpu

  /** n bytes copied upwards from s to d are all read before they are overwritten. */
  predicate Undisturbed(s: nat, n: nat, d: nat) {
    d <= s || s + n <= d
  }

  /** i reduced below k by taking k away. */
  function Phase(i: nat, k: nat): (r: nat)
    requires k > 0
    ensures r < k && r <= i
  {
    if i < k then i else Phase(i - k, k)
  }

  lemma {:induction false} NextPhase(i: nat, k: nat)
    requires k > 0
    ensures Phase(i + 1, k) == if Phase(i, k) == k - 1 then 0 else Phase(i, k) + 1
  {
    if i < k {
    } else {
      NextPhase(i - k, k);
    }
  }

  lemma RemainderWithout(i: nat, k: nat, i': nat)
    requires k > 0 && i == i' + k
    ensures i % k == i' % k
  {
    var q, r := i' / k, i' % k;
    assert i == (q + 1) * k + r;
    RemainderUnique(i, k, q + 1, r);
  }

  lemma {:induction false} PhaseIsRemainder(i: nat, k: nat)
    requires k > 0
    ensures Phase(i, k) == i % k
  {
    if i < k {
      RemainderUnique(i, k, 0, i);
    } else {
      var i' := i - k;
      PhaseIsRemainder(i', k);
      RemainderWithout(i, k, i');
    }
  }

  lemma RemainderUnique(i: nat, k: nat, q: nat, r: nat)
    requires r < k && i == q * k + r
    ensures i % k == r
  {
    var q', r' := i / k, i % k;
    Distribute(q, q', k);
    if q > q' { AtLeastFactor(q - q', k); }
    if q < q' { AtLeastFactor(q' - q, k); }
  }

  lemma Distribute(a: int, b: int, k: int)
    ensures (a - b) * k == a * k - b * k && (b - a) * k == b * k - a * k
  {
  }

  lemma AtLeastFactor(a: nat, k: nat)
    requires a >= 1
    ensures a * k >= k
  {
    assert a * k == (a - 1) * k + k;
  }

  /** The n bytes that an upward copy from s to s + k leaves behind when it reads its own output. */
  function Periodic(m: Memory, s: nat, k: nat, n: nat): (r: seq<byte>)
    requires 0 < k && s + k <= |m|
    ensures |r| == n && forall i :: 0 <= i < n ==> r[i] == m[s + Phase(i, k)]
  {
    seq(n, i requires i >= 0 => m[s + Phase(i, k)])
  }

  lemma {:induction false} MoveUpUndisturbed(m: Memory, s: nat, d: nat, n: nat)
    requires s + n <= |m| && d + n <= |m| && Undisturbed(s, n, d)
    ensures forall j {:trigger MoveUp(m, s, d, n)[j]} :: 0 <= j < |m| ==>
              MoveUp(m, s, d, n)[j] == if d <= j < d + n then m[s + (j - d)] else m[j]
    decreases n
  {
    if n > 0 {
      MoveUpUndisturbed(m[d := m[s]], s + 1, d + 1, n - 1);
      assert MoveUp(m, s, d, n) == MoveUp(m[d := m[s]], s + 1, d + 1, n - 1);
    } else {
      assert MoveUp(m, s, d, n) == m;
    }
  }

  lemma {:induction false} MoveUpOverlapping(m: Memory, s: nat, d: nat, n: nat)
    requires s + n <= |m| && d + n <= |m| && s < d
    ensures forall j {:trigger MoveUp(m, s, d, n)[j]} :: 0 <= j < |m| ==>
              MoveUp(m, s, d, n)[j] == if d <= j < d + n then m[s + Phase(j - d, d - s)] else m[j]
    decreases n
  {
    if n > 0 {
      var m1, k := m[d := m[s]], d - s;
      MoveUpOverlapping(m1, s + 1, d + 1, n - 1);
      assert MoveUp(m, s, d, n) == MoveUp(m1, s + 1, d + 1, n - 1);
      forall j | 0 <= j < |m|
        ensures MoveUp(m, s, d, n)[j] == if d <= j < d + n then m[s + Phase(j - d, k)] else m[j]
      {
        if d < j < d + n {
          NextPhase(j - d - 1, k);
        }
      }
    } else {
      assert MoveUp(m, s, d, n) == m;
    }
  }

  lemma {:induction false} MoveDownUndisturbed(m: Memory, s: nat, d: nat, n: nat)
    requires s + n <= |m| && d + n <= |m| && (s <= d || d + n <= s)
    ensures forall j {:trigger MoveDown(m, s, d, n)[j]} :: 0 <= j < |m| ==>
              MoveDown(m, s, d, n)[j] == if d <= j < d + n then m[s + (j - d)] else m[j]
    decreases n
  {
    if n > 0 {
      MoveDownUndisturbed(m[d + n - 1 := m[s + n - 1]], s, d, n - 1);
      assert MoveDown(m, s, d, n) == MoveDown(m[d + n - 1 := m[s + n - 1]], s, d, n - 1);
    } else {
      assert MoveDown(m, s, d, n) == m;
    }
  }

  /** What memcpy puts at the destination. */
  function CopiedBytes(m: Memory, s: nat, d: nat, n: nat): (r: seq<byte>)
    requires s + n <= |m| && d + n <= |m|
    ensures |r| == n
  {
    if Undisturbed(s, n, d) then m[s..s + n] else Periodic(m, s, d - s, n)
  }

  lemma MoveUpCopies(m: Memory, s: nat, d: nat, n: nat)
    requires s + n <= |m| && d + n <= |m|
    ensures MoveUp(m, s, d, n) == Blit(m, d, CopiedBytes(m, s, d, n))
  {
    if Undisturbed(s, n, d) {
      MoveUpUndisturbed(m, s, d, n);
    } else {
      MoveUpOverlapping(m, s, d, n);
    }
  }

  lemma MoveDownCopies(m: Memory, s: nat, d: nat, n: nat)
    requires s + n <= |m| && d + n <= |m| && s <= d
    ensures MoveDown(m, s, d, n) == Blit(m, d, m[s..s + n])
  {
    MoveDownUndisturbed(m, s, d, n);
  }

  method Memcpy(cpu: Machine, dest: word, src: word, n: word) returns (res: word)
    requires cpu.Fits() && src + n <= cpu.mem.Length && dest + n <= cpu.mem.Length
    modifies cpu, cpu.mem
    ensures res == dest && !cpu.df
    ensures cpu.mem[..] == Blit(old(cpu.mem[..]), dest, CopiedBytes(old(cpu.mem[..]), src, dest, n))
  {
    MoveUpCopies(cpu.mem[..], src, dest, n);
    cpu.df := false;
    cpu.RepMovsb(src, dest, n, src, dest);
    res := dest;
  }

  lemma NoWrap(x: int)
    ensures 0 <= x < WORD_LIMIT ==> Wrap(x) == x
  {
  }

  /** The direction flag is left set when the copy ran downwards. */
  method Memmove(cpu: Machine, dest: word, src: word, n: word) returns (res: word)
    requires cpu.Fits() && src + n <= cpu.mem.Length && dest + n <= cpu.mem.Length
    modifies cpu, cpu.mem
    ensures res == dest && cpu.df == (dest >= src)
    ensures cpu.mem[..] == Blit(old(cpu.mem[..]), dest, old(cpu.mem[..])[src..src + n])
  {
    if dest < src {
      MoveUpCopies(cpu.mem[..], src, dest, n);
      cpu.df := false;
      cpu.RepMovsb(src, dest, n, src, dest);
    } else {
      MoveDownCopies(cpu.mem[..], src, dest, n);
      cpu.df := true;
      var esi, edi := Wrap(src + n - 1), Wrap(dest + n - 1);
      NoWrap(src + n - 1);
      NoWrap(dest + n - 1);
      cpu.RepMovsb(esi, edi, n, src, dest);
    }
    res := dest;
  }

  method Memset(cpu: Machine, s: word, c: byte, count: word) returns (res: word)
    requires cpu.Fits() && s + count <= cpu.mem.Length
    modifies cpu, cpu.mem
    ensures res == s && !cpu.df
    ensures cpu.mem[..] == Blit(old(cpu.mem[..]), s, Fill(count, c))
  {
    cpu.df := false;
    var edi, ecx := cpu.RepStosb(c, s, count);
    res := s;
  }

  /**
   * memcpy leaves what memmove leaves exactly when the copy does not read its own
   * output, or when the source, which ends at e, repeats itself with the period that is
   * the distance: what starts at d is then what starts at s, up to f.
   */
  lemma MemcpyIsMemmoveIff(m: Memory, s: nat, d: nat, n: nat, e: nat, f: int)
    requires s + n <= |m| && d + n <= |m| && e == s + n && f == e - (d - s)
    ensures Blit(m, d, CopiedBytes(m, s, d, n)) == Blit(m, d, m[s..e])
            <==> Undisturbed(s, n, d) || m[d..e] == m[s..f]
  {
    SameBlit(m, d, CopiedBytes(m, s, d, n), m[s..e]);
    if Undisturbed(s, n, d) {
      CopiedUndisturbed(m, s, d, n, e);
    } else {
      CopiedOverlapping(m, s, d, n, e, f, d - s);
    }
  }

  lemma CopiedUndisturbed(m: Memory, s: nat, d: nat, n: nat, e: nat)
    requires s + n <= |m| && d + n <= |m| && e == s + n && Undisturbed(s, n, d)
    ensures CopiedBytes(m, s, d, n) == m[s..e]
  {
  }

  lemma CopiedOverlapping(m: Memory, s: nat, d: nat, n: nat, e: nat, f: nat, k: nat)
    requires s + n <= |m| && d + n <= |m| && e == s + n && f == e - k && !Undisturbed(s, n, d) && d == s + k
    ensures CopiedBytes(m, s, d, n) == m[s..e] <==> m[d..e] == m[s..f]
  {
    PeriodicIffShifted(m, s, k, n, d, e, f);
  }

  lemma SameBlit(m: Memory, d: nat, a: seq<byte>, b: seq<byte>)
    requires |a| == |b| && d + |a| <= |m|
    ensures Blit(m, d, a) == Blit(m, d, b) <==> a == b
  {
    assert Blit(m, d, a)[d..d + |a|] == a && Blit(m, d, b)[d..d + |b|] == b;
  }

  /** A block repeats its first k bytes exactly when shifting it by k changes nothing. */
  lemma PeriodicIffShifted(m: Memory, s: nat, k: nat, n: nat, d: nat, e: nat, f: nat)
    requires 0 < k <= n && s + n <= |m| && d == s + k && e == s + n && f == s + n - k
    ensures Periodic(m, s, k, n) == m[s..e] <==> m[d..e] == m[s..f]
  {
    var p, b := Periodic(m, s, k, n), m[s..e];
    assert b[k..] == m[d..e] && b[..n - k] == m[s..f];
    assert p[k..] == p[..n - k];
    if b[k..] == b[..n - k] {
      forall j | 0 <= j < n ensures p[j] == b[j] { Repeats(b, m, s, k, j); }
    }
  }

  lemma {:induction false} Repeats(b: seq<byte>, m: Memory, s: nat, k: nat, j: nat)
    requires 0 < k <= |b| && j < |b| && s + |b| <= |m| && b == m[s..s + |b|]
    requires b[k..] == b[..|b| - k]
    ensures b[j] == m[s + Phase(j, k)]
  {
    if j < k {
    } else {
      Repeats(b, m, s, k, j - k);
      assert b[k..][j - k] == b[..|b| - k][j - k];
    }
  }
}
