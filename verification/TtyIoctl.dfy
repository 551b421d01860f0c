/** fs/tty_ioctl.c for one terminal: its settings, its queues' indices, its process group. */
module TtyIoctl {
  import opened Bytes
  import opened CStrings
  import opened Termios

  const TCGETS := 0x5401
  const TCSETS := 0x5402
  const TCSETSW := 0x5403
  const TCSETSF := 0x5404
  const TCGETA := 0x5405
  const TCSETA := 0x5406
  const TCSETAW := 0x5407
  const TCSETAF := 0x5408
  const TCSBRK := 0x5409
  const TCFLSH := 0x540B
  const TIOCGPGRP := 0x540F
  const TIOCSPGRP := 0x5410
  const TIOCOUTQ := 0x5411

  const EINVAL := 22
  const TTY_BUF_SIZE := 1024

  class TtyQueue {
    var head: word
    var tail: word

    constructor (head: word, tail: word)
      ensures this.head == head && this.tail == tail
    {
      this.head, this.tail := head, tail;
    }

    method Flush()
      modifies this
      ensures head == tail == old(tail)
    {
      head := tail;
    }
  }

  /** The indices of a queue. */
  datatype Indices = Indices(head: word, tail: word)

  /** CHARS: how many characters a queue holds. */
  function Chars(q: Indices): word {
    (q.head - q.tail) % TTY_BUF_SIZE
  }

  /** The state of a terminal as a value. */
  datatype State = State(termios: seq<byte>, pgrp: word, read: Indices, write: Indices)

  method StoreShort(a: array<byte>, i: nat, v: nat)
    requires i + 2 <= a.Length && v < 0x1_0000
    modifies a
    ensures a[..] == Blit(old(a[..]), i, ShortBytes(v))
  {
    a[i] := v % 0x100;
    a[i + 1] := v / 0x100;
  }

  /** A store of a short that was loaded from another struct. */
  method MoveShort(src: array<byte>, i: nat, dst: array<byte>, j: nat)
    requires src != dst && i + 2 <= src.Length && j + 2 <= dst.Length
    modifies dst
    ensures dst[..] == old(dst[..])[j := src[i]][j + 1 := src[i + 1]]
  {
    ShortRoundTrip(src[..], i);
    StoreShort(dst, j, Short(src[..], i));
  }

  /** A long of one struct assigned to a short of the other. */
  method TruncateLong(src: array<byte>, i: nat, dst: array<byte>, j: nat)
    requires src != dst && i + 4 <= src.Length && j + 2 <= dst.Length
    modifies dst
    ensures dst[..] == old(dst[..])[j := src[i]][j + 1 := src[i + 1]]
  {
    LongHalves(src[..], i);
    ShortRoundTrip(src[..], i);
    StoreShort(dst, j, Long(src[..], i) % 0x1_0000);
  }

  method StoreLong(a: array<byte>, i: nat, v: word)
    requires i + 4 <= a.Length
    modifies a
    ensures a[..] == Blit(old(a[..]), i, LongBytes(v))
  {
    ghost var m := a[..];
    StoreShort(a, i, v % 0x1_0000);
    StoreShort(a, i + 2, v / 0x1_0000);
  }

  /** A byte-by-byte copy between two arrays, as the loops over get_fs_byte and put_fs_byte do it. */
  method CopyBytes(src: array<byte>, from: nat, dst: array<byte>, to: nat, n: nat)
    requires src != dst && from + n <= src.Length && to + n <= dst.Length
    modifies dst
    ensures dst[..] == Blit(old(dst[..]), to, src[from..from + n])
  {
    for i := 0 to n
      invariant forall k :: 0 <= k < dst.Length ==>
                  dst[k] == if to <= k < to + i then src[k - to + from] else old(dst[k])
    {
      dst[to + i] := src[from + i];
    }
  }

  class Terminal {
    const termios: array<byte>
    const readQ: TtyQueue
    const writeQ: TtyQueue
    var pgrp: word

    constructor (termios: array<byte>, readQ: TtyQueue, writeQ: TtyQueue)
      requires termios.Length == TERMIOS_SIZE && readQ != writeQ
      ensures Valid() && this.termios == termios && this.readQ == readQ && this.writeQ == writeQ
    {
      this.termios, this.readQ, this.writeQ, pgrp := termios, readQ, writeQ, 0;
    }

    ghost predicate Valid() {
      termios.Length == TERMIOS_SIZE && readQ != writeQ
    }

    ghost function Value(): (s: State)
      reads this, termios, readQ, writeQ
      ensures s.termios == termios[..] && s.pgrp == pgrp
      ensures s.read.head == readQ.head && s.read.tail == readQ.tail
      ensures s.write.head == writeQ.head && s.write.tail == writeQ.tail
    {
      State(termios[..], pgrp, Indices(readQ.head, readQ.tail), Indices(writeQ.head, writeQ.tail))
    }

    method GetTermios(user: array<byte>, arg: word) returns (res: int)
      requires Valid() && user != termios && arg + TERMIOS_SIZE <= user.Length
      modifies user
      ensures res == 0 && user[..] == Blit(old(user[..]), arg, termios[..])
    {
      CopyBytes(termios, 0, user, arg, TERMIOS_SIZE);
      assert termios[0..TERMIOS_SIZE] == termios[..];
      res := 0;
    }

    method SetTermios(user: array<byte>, arg: word) returns (res: int)
      requires Valid() && user != termios && arg + TERMIOS_SIZE <= user.Length
      modifies termios
      ensures res == 0 && termios[..] == user[arg..arg + TERMIOS_SIZE]
    {
      CopyBytes(user, arg, termios, 0, TERMIOS_SIZE);
      res := 0;
    }

    /** The four assignments of a long to a short of the struct on the stack. */
    method LoadFlags(tmp: array<byte>)
      requires Valid() && tmp != termios && tmp.Length == TERMIO_SIZE
      modifies tmp
      ensures forall i :: 0 <= i < 8 ==> tmp[i] == termios[Place(i)]
      ensures forall i :: 8 <= i < TERMIO_SIZE ==> tmp[i] == old(tmp[i])
    {
      TruncateLong(termios, 0, tmp, 0);
      TruncateLong(termios, 4, tmp, 2);
      TruncateLong(termios, 8, tmp, 4);
      TruncateLong(termios, 12, tmp, 6);
    }

    /** The padding byte of the struct on the stack is whatever was there. */
    method GetTermio(user: array<byte>, arg: word, padding: byte) returns (res: int)
      requires Valid() && user != termios && arg + TERMIO_SIZE <= user.Length
      modifies user
      ensures res == 0 && user[..] == Blit(old(user[..]), arg, View(termios[..]) + [padding])
    {
      ghost var t, u := termios[..], user[..];
      var tmp := new byte[TERMIO_SIZE](_ => padding);
      LoadFlags(tmp);
      tmp[8] := termios[16];
      for i := 0 to NCC
        invariant user[..] == u && tmp[17] == padding
        invariant forall k :: 0 <= k < 9 + i ==> tmp[k] == t[Place(k)]
      {
        tmp[9 + i] := termios[17 + i];
      }
      assert tmp[0..TERMIO_SIZE] == View(t) + [padding] && user[..] == u;
      CopyBytes(tmp, 0, user, arg, TERMIO_SIZE);
      assert termios[..] == t;
      res := 0;
    }

    /** The four stores through (unsigned short *) into the flag words. */
    method StoreFlags(tmp: array<byte>)
      requires Valid() && tmp != termios && tmp.Length == TERMIO_SIZE
      modifies termios
      ensures forall p :: 0 <= p < 16 ==> termios[p] == if Hidden(p) then old(termios[p]) else tmp[Shown(p)]
      ensures forall p :: 16 <= p < TERMIOS_SIZE ==> termios[p] == old(termios[p])
    {
      MoveShort(tmp, 0, termios, 0);
      MoveShort(tmp, 2, termios, 4);
      MoveShort(tmp, 4, termios, 8);
      MoveShort(tmp, 6, termios, 12);
    }

    method SetTermio(user: array<byte>, arg: word) returns (res: int)
      requires Valid() && user != termios && arg + TERMIO_SIZE <= user.Length
      modifies termios
      ensures res == 0 && termios[..] == Update(old(termios[..]), user[arg..arg + VIEW_SIZE])
    {
      ghost var t, v := termios[..], user[arg..arg + VIEW_SIZE];
      var tmp := new byte[TERMIO_SIZE](_ => 0);
      CopyBytes(user, arg, tmp, 0, TERMIO_SIZE);
      assert forall k :: 0 <= k < VIEW_SIZE ==> tmp[k] == v[k];
      StoreFlags(tmp);
      termios[16] := tmp[8];
      for i := 0 to NCC
        invariant forall k :: 0 <= k < VIEW_SIZE ==> tmp[k] == v[k]
        invariant forall p :: 0 <= p < 17 + i ==> termios[p] == if Hidden(p) then t[p] else v[Shown(p)]
        invariant forall p :: 17 + i <= p < TERMIOS_SIZE ==> termios[p] == t[p]
      {
        termios[17 + i] := tmp[9 + i];
      }
      res := 0;
    }

    /** wait_until_sent and send_break are empty in the source. */
    method Ioctl(user: array<byte>, cmd: int, arg: word, padding: byte) returns (res: int)
      requires Valid() && user != termios && Accessible(user.Length, cmd, arg)
      modifies this, termios, readQ, writeQ, user
      ensures Reply(Value(), user[..], res) == Handle(old(Value()), old(user[..]), cmd, arg, padding)
    {
      ghost var t, u := termios[..], user[..];
      if cmd == TCGETS {
        res := GetTermios(user, arg);
      } else if cmd == TCSETSF || cmd == TCSETSW || cmd == TCSETS {
        if cmd == TCSETSF { readQ.Flush(); }
        res := SetTermios(user, arg);
      } else if cmd == TCGETA {
        res := GetTermio(user, arg, padding);
      } else if cmd == TCSETAF || cmd == TCSETAW || cmd == TCSETA {
        if cmd == TCSETAF { readQ.Flush(); }
        assert termios[..] == t && user[..] == u;
        res := SetTermio(user, arg);
      } else if cmd == TCSBRK {
        res := 0;
      } else if cmd == TCFLSH {
        res := FlushQueues(arg);
      } else if cmd == TIOCGPGRP {
        StoreLong(user, arg, pgrp);
        res := 0;
      } else if cmd == TIOCSPGRP {
        pgrp := Long(user[..], arg);
        res := 0;
      } else if cmd == TIOCOUTQ {
        StoreLong(user, arg, Chars(Indices(writeQ.head, writeQ.tail)));
        res := 0;
      } else {
        res := -EINVAL;
      }
    }

    method FlushQueues(arg: word) returns (res: int)
      requires Valid()
      modifies readQ, writeQ
      ensures Value() == AfterFlush(old(Value()), arg)
      ensures res == if arg <= 2 then 0 else -EINVAL
    {
      res := 0;
      if arg == 0 {
        readQ.Flush();
      } else if arg == 1 {
        writeQ.Flush();
      } else if arg == 2 {
        readQ.Flush();
        writeQ.Flush();
      } else {
        res := -EINVAL;
      }
    }
  }

  const TTY_MAJOR := 5  // /dev/tty, the terminal of the current process

  function Major(dev: word): word {
    dev / 0x100
  }

  function Minor(dev: word): word {
    dev % 0x100
  }

  /** The terminal that a device number stands for; negative when the process has none. */
  function Selected(dev: word, currentTty: int): int {
    if Major(dev) == TTY_MAJOR then currentTty else Minor(dev)
  }

  /** What a call may change, if it does not panic. */
  ghost function Footprint(table: seq<Terminal>, n: int, user: array<byte>): set<object>
    requires n < |table|
  {
    if n < 0 then {} else {table[n], table[n].termios, table[n].readQ, table[n].writeQ, user}
  }

  /**
   * tty_ioctl: a process without a terminal makes the kernel panic, with nothing changed;
   * otherwise the selected terminal, and no other, handles the command. The table index
   * is not checked by the source.
   */
  method DeviceIoctl(table: seq<Terminal>, dev: word, currentTty: int, user: array<byte>, cmd: int, arg: word,
                     padding: byte)
    returns (panics: bool, res: int)
    requires Selected(dev, currentTty) < |table|
    requires forall i :: 0 <= i < |table| ==> table[i].Valid() && table[i].termios != user
    requires Accessible(user.Length, cmd, arg)
    modifies Footprint(table, Selected(dev, currentTty), user)
    ensures panics <==> Major(dev) == TTY_MAJOR && currentTty < 0
    ensures var n := Selected(dev, currentTty);
            !panics ==> 0 <= n && table[n].Valid()
                        && Reply(table[n].Value(), user[..], res)
                                  == Handle(old(table[n].Value()), old(user[..]), cmd, arg, padding)
  {
    var n := Minor(dev);
    if Major(dev) == TTY_MAJOR {
      if currentTty < 0 { return true, 0; }
      n := currentTty;
    }
    panics := false;
    res := table[n].Ioctl(user, cmd, arg, padding);
  }

  /** The user memory that a command reads or writes is there. */
  predicate Accessible(n: nat, cmd: int, arg: word) {
    && (cmd == TCGETS || SetsTermios(cmd) ==> arg + TERMIOS_SIZE <= n)
    && (cmd == TCGETA || SetsTermio(cmd) ==> arg + TERMIO_SIZE <= n)
    && (cmd == TIOCGPGRP || cmd == TIOCSPGRP || cmd == TIOCOUTQ ==> arg + 4 <= n)
  }

  predicate SetsTermios(cmd: int) {
    cmd == TCSETS || cmd == TCSETSW || cmd == TCSETSF
  }

  predicate SetsTermio(cmd: int) {
    cmd == TCSETA || cmd == TCSETAW || cmd == TCSETAF
  }

  function Flushed(q: Indices): Indices {
    q.(head := q.tail)
  }

  function AfterFlush(s: State, arg: word): State {
    if arg == 0 then s.(read := Flushed(s.read))
    else if arg == 1 then s.(write := Flushed(s.write))
    else if arg == 2 then s.(read := Flushed(s.read), write := Flushed(s.write))
    else s
  }

  datatype Reply = Reply(state: State, user: seq<byte>, res: int)

  /** What a call does, on values. */
  function Handle(s: State, user: seq<byte>, cmd: int, arg: word, padding: byte): Reply
    requires |s.termios| == TERMIOS_SIZE && Accessible(|user|, cmd, arg)
  {
    if cmd == TCGETS then Reply(s, Blit(user, arg, s.termios), 0)
    else if SetsTermios(cmd) then
      var s' := if cmd == TCSETSF then AfterFlush(s, 0) else s;
      Reply(s'.(termios := user[arg..arg + TERMIOS_SIZE]), user, 0)
    else if cmd == TCGETA then Reply(s, Blit(user, arg, View(s.termios) + [padding]), 0)
    else if SetsTermio(cmd) then
      var s' := if cmd == TCSETAF then AfterFlush(s, 0) else s;
      Reply(s'.(termios := Update(s.termios, user[arg..arg + VIEW_SIZE])), user, 0)
    else if cmd == TCSBRK then Reply(s, user, 0)
    else if cmd == TCFLSH then Reply(AfterFlush(s, arg), user, if arg <= 2 then 0 else -EINVAL)
    else if cmd == TIOCGPGRP then Reply(s, Blit(user, arg, LongBytes(s.pgrp)), 0)
    else if cmd == TIOCSPGRP then Reply(s.(pgrp := Long(user, arg)), user, 0)
    else if cmd == TIOCOUTQ then Reply(s, Blit(user, arg, LongBytes(Chars(s.write))), 0)
    else Reply(s, user, -EINVAL)
  }
}
