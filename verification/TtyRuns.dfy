/** What tty_ioctl calls promise together: the settings as a window, and whole runs of calls. */
module TtyRuns {
  import opened Bytes
  import opened CStrings
  import opened Termios
  import opened TtyIoctl

  predicate Sound(s: State) {
    |s.termios| == TERMIOS_SIZE
  }

  lemma BlitSlice(m: seq<byte>, d: nat, s: seq<byte>, n: nat)
    requires d + |s| <= |m| && n <= |s|
    ensures Blit(m, d, s)[d..d + n] == s[..n]
  {
  }

  /** TCGETA and then TCSETA of the same buffer leave the terminal as it was. */
  lemma GetThenSet(s: State, user: seq<byte>, arg: word, padding: byte, other: byte)
    requires Sound(s) && Accessible(|user|, TCGETA, arg)
    ensures var got := Handle(s, user, TCGETA, arg, padding);
            Accessible(|got.user|, TCSETA, arg) && Handle(got.state, got.user, TCSETA, arg, other).state == s
  {
    var got := Handle(s, user, TCGETA, arg, padding);
    BlitSlice(user, arg, View(s.termios) + [padding], VIEW_SIZE);
    assert got.user[arg..arg + VIEW_SIZE] == View(s.termios);
    ViewThenUpdate(s.termios);
  }

  /** TCSETA, TCSETAW or TCSETAF and then TCGETA, into any buffer, give back the 17 bytes. */
  lemma SetThenGet(s: State, user: seq<byte>, cmd: int, arg: word, buffer: seq<byte>, to: word, padding: byte)
    requires Sound(s) && SetsTermio(cmd) && Accessible(|user|, cmd, arg) && Accessible(|buffer|, TCGETA, to)
    ensures var stored := Handle(s, user, cmd, arg, 0);
            && Sound(stored.state)
            && Handle(stored.state, buffer, TCGETA, to, padding).user[to..to + VIEW_SIZE] == user[arg..arg + VIEW_SIZE]
  {
    var v, stored := user[arg..arg + VIEW_SIZE], Handle(s, user, cmd, arg, 0);
    UpdateThenView(s.termios, v);
    assert View(stored.state.termios) == v;
    BlitSlice(buffer, to, v + [padding], VIEW_SIZE);
  }

  /** Of two settings through the window only the second one counts. */
  lemma SetTwice(s: State, user: seq<byte>, arg: word, user2: seq<byte>, arg2: word)
    requires Sound(s) && Accessible(|user|, TCSETA, arg) && Accessible(|user2|, TCSETA, arg2)
    ensures Handle(Handle(s, user, TCSETA, arg, 0).state, user2, TCSETA, arg2, 0).state
            == Handle(s, user2, TCSETA, arg2, 0).state
  {
    UpdateTwice(s.termios, user[arg..arg + VIEW_SIZE], user2[arg2..arg2 + VIEW_SIZE]);
  }

  /** TCSETS and then TCGETA: the low halves of the flag words, the line, the first NCC characters. */
  lemma SetAllThenGet(s: State, user: seq<byte>, arg: word, buffer: seq<byte>, to: word, padding: byte)
    requires Sound(s) && Accessible(|user|, TCSETS, arg) && Accessible(|buffer|, TCGETA, to)
    ensures var t, stored := user[arg..arg + TERMIOS_SIZE], Handle(s, user, TCSETS, arg, 0);
            Sound(stored.state) &&
            var got := Handle(stored.state, buffer, TCGETA, to, padding).user[to..to + VIEW_SIZE];
            && Short(got, 0) == Long(t, 0) % 0x1_0000 && Short(got, 2) == Long(t, 4) % 0x1_0000
            && Short(got, 4) == Long(t, 8) % 0x1_0000 && Short(got, 6) == Long(t, 12) % 0x1_0000
            && got[8] == t[16] && got[9..9 + NCC] == t[17..17 + NCC]
  {
    var t := user[arg..arg + TERMIOS_SIZE];
    BlitSlice(buffer, to, View(t) + [padding], VIEW_SIZE);
    assert Handle(Handle(s, user, TCSETS, arg, 0).state, buffer, TCGETA, to, padding).user[to..to + VIEW_SIZE]
           == View(t);
    ViewMeans(t);
  }

  /** A process group that was set is read back. */
  lemma ProcessGroupRoundTrip(s: State, user: seq<byte>, arg: word, buffer: seq<byte>, to: word)
    requires Sound(s) && Accessible(|user|, TIOCSPGRP, arg) && Accessible(|buffer|, TIOCGPGRP, to)
    ensures Handle(Handle(s, user, TIOCSPGRP, arg, 0).state, buffer, TIOCGPGRP, to, 0).user[to..to + 4]
            == user[arg..arg + 4]
  {
    var v := Long(user, arg);
    assert Long(user[arg..arg + 4], 0) == v;
    LongRoundTrip(user[arg..arg + 4]);
    BlitSlice(buffer, to, LongBytes(v), 4);
  }

  /** The same 36 bytes come back from TCGETS after TCSETS, TCSETSW or TCSETSF, and no other byte is written. */
  lemma SetAllThenGetAll(s: State, user: seq<byte>, cmd: int, arg: word, buffer: seq<byte>, to: word)
    requires Sound(s) && cmd in {0x5402, 0x5403, 0x5404} && arg + 36 <= |user| && to + 36 <= |buffer|
    ensures var got := Handle(Handle(s, user, cmd, arg, 0).state, buffer, 0x5401, to, 0).user;
            && got[to..to + 36] == user[arg..arg + 36]
            && |got| == |buffer| && forall i :: 0 <= i < |got| && !(to <= i < to + 36) ==> got[i] == buffer[i]
  {
    BlitSlice(buffer, to, user[arg..arg + 36], 36);
  }

  /** Four bytes as a number, least significant first. */
  function FourBytes(a: int, b: int, c: int, d: int): int {
    a + 0x100 * b + 0x1_0000 * c + 0x100_0000 * d
  }

  lemma BytesInOrder(b: seq<byte>, i: nat)
    requires i + 4 <= |b|
    ensures Short(b, i) == FourBytes(b[i], b[i + 1], 0, 0)
    ensures Long(b, i) == FourBytes(b[i], b[i + 1], b[i + 2], b[i + 3])
  {
  }

  lemma SmallLong(k: nat)
    requires k < 1024
    ensures LongBytes(k) == [k % 0x100, k / 0x100, 0, 0]
  {
    assert k % 0x1_0000 == k && k / 0x1_0000 == 0;
    assert ShortBytes(k) == [k % 0x100, k / 0x100] && ShortBytes(0) == [0, 0];
  }

  /** A ring of 1024 whose head is k steps ahead of its tail. */
  lemma CharsAhead(q: Indices, k: nat)
    requires k < 1024 && q.tail < 1024 && q.head == (q.tail + k) % 1024
    ensures Chars(q) == k
  {
    if q.tail + k < 1024 {
      assert q.head - q.tail == k;
    } else {
      assert q.head == q.tail + k - 1024;
      assert (q.head - q.tail) % 1024 == (k - 1024) % 1024 == k;
    }
  }

  /** TIOCOUTQ: the number of characters in the write queue, as four bytes, and no other byte is written. */
  lemma OutputQueue(s: State, user: seq<byte>, arg: word, padding: byte, k: nat)
    requires Sound(s) && arg + 4 <= |user|
    requires k < 1024 && s.write.tail < 1024 && s.write.head == (s.write.tail + k) % 1024
    ensures var o := Handle(s, user, 0x5411, arg, padding);
            && o.state == s && |o.user| == |user|
            && o.user[arg] == k % 0x100 && o.user[arg + 1] == k / 0x100
            && o.user[arg + 2] == 0 && o.user[arg + 3] == 0
            && forall i :: 0 <= i < |user| && !(arg <= i < arg + 4) ==> o.user[i] == user[i]
  {
    CharsAhead(s.write, k);
    SmallLong(k);
  }

  /** TIOCSPGRP and TIOCGPGRP: the process group is the long at the address. */
  lemma ProcessGroupBytes(s: State, user: seq<byte>, arg: word)
    requires Sound(s) && arg + 4 <= |user|
    ensures var o := Handle(s, user, 0x5410, arg, 0);
            && o.state == s.(pgrp := o.state.pgrp) && o.user == user
            && o.state.pgrp == FourBytes(user[arg], user[arg + 1], user[arg + 2], user[arg + 3])
    ensures var o := Handle(s, user, 0x540F, arg, 0);
            && o.state == s && |o.user| == |user|
            && s.pgrp == FourBytes(o.user[arg], o.user[arg + 1], o.user[arg + 2], o.user[arg + 3])
            && forall i :: 0 <= i < |user| && !(arg <= i < arg + 4) ==> o.user[i] == user[i]
  {
    BytesInOrder(user, arg);
    LongOfBytes(s.pgrp);
    BytesInOrder(LongBytes(s.pgrp), 0);
  }

  lemma LongOfBytes(v: word)
    ensures Long(LongBytes(v), 0) == v
  {
    var lo, hi := v % 0x1_0000, v / 0x1_0000;
    assert v == lo + 0x1_0000 * hi;
    ShortOfBytes(LongBytes(v), 0, lo);
    ShortOfBytes(LongBytes(v), 2, hi);
  }

  lemma ShortOfBytes(b: seq<byte>, i: nat, v: nat)
    requires i + 2 <= |b| && v < 0x1_0000 && b[i] == ShortBytes(v)[0] && b[i + 1] == ShortBytes(v)[1]
    ensures Short(b, i) == v
  {
  }

  /** The flushes, and the settings that flush first, by their numbers. */
  lemma FlushesByNumber(s: State, user: seq<byte>, arg: word, q: word)
    requires Sound(s) && arg + 36 <= |user|
    ensures var empty := s.(read := s.read.(head := s.read.tail));
            && Handle(s, user, 0x540B, 0, 0) == Reply(empty, user, 0)
            && Handle(s, user, 0x540B, 1, 0) == Reply(s.(write := s.write.(head := s.write.tail)), user, 0)
            && Handle(s, user, 0x540B, 2, 0) == Reply(empty.(write := s.write.(head := s.write.tail)), user, 0)
            && (q > 2 ==> Handle(s, user, 0x540B, q, 0) == Reply(s, user, -22))
            && Handle(s, user, 0x5402, arg, 0) == Handle(s, user, 0x5403, arg, 0)
            && Handle(s, user, 0x5404, arg, 0) == Handle(empty, user, 0x5402, arg, 0)
            && Handle(s, user, 0x5406, arg, 0) == Handle(s, user, 0x5407, arg, 0)
            && Handle(s, user, 0x5408, arg, 0) == Handle(empty, user, 0x5406, arg, 0)
            && Handle(s, user, 0x5409, arg, 0) == Reply(s, user, 0)
  {
  }

  /** /dev/tty is device number 5 times 256 and anything; every other number names a terminal by its low byte. */
  lemma SelectedByNumber(major: nat, minor: nat, currentTty: int)
    requires minor < 0x100 && 0x100 * major + minor < WORD_LIMIT
    ensures Selected(0x100 * major + minor, currentTty) == if major == 5 then currentTty else minor
  {
  }

  /** The commands that the switch gives a case of their own and does not refuse. */
  predicate Implemented(cmd: int) {
    cmd == TCGETS || cmd == TCGETA || SetsTermios(cmd) || SetsTermio(cmd) || cmd == TCSBRK || cmd == TCFLSH
    || cmd == TIOCGPGRP || cmd == TIOCSPGRP || cmd == TIOCOUTQ
  }

  /** They are 0x5401 to 0x5409 and four more, and TCGETA, 0x5405, shows the window at the address. */
  lemma CommandNumbers(s: State, user: seq<byte>, cmd: int, arg: word, padding: byte)
    requires Sound(s) && arg + 18 <= |user|
    ensures Implemented(cmd) <==> 0x5401 <= cmd <= 0x5409 || cmd == 0x540B || 0x540F <= cmd <= 0x5411
    ensures var o := Handle(s, user, 0x5405, arg, padding);
            && o.state == s && |o.user| == |user| && o.user[arg..arg + 17] == View(s.termios)
            && forall i :: 0 <= i < |user| && !(arg <= i < arg + 18) ==> o.user[i] == user[i]
  {
    BlitSlice(user, arg, View(s.termios) + [padding], 17);
  }

  /** -EINVAL is returned exactly for the rest and for an unknown queue to flush, and then nothing changes. */
  lemma RefusedCallsChangeNothing(s: State, user: seq<byte>, cmd: int, arg: word, padding: byte)
    requires Sound(s) && Accessible(|user|, cmd, arg)
    ensures var o := Handle(s, user, cmd, arg, padding);
            && (o.res == -EINVAL <==> !Implemented(cmd) || (cmd == TCFLSH && arg > 2))
            && (o.res != -EINVAL ==> o.res == 0)
            && (o.res == -EINVAL ==> o.state == s && o.user == user)
  {
  }

  /** A flush empties its queue and moves nothing else; each part of the state changes only by its own commands. */
  lemma EachPartByItsOwnCommands(s: State, user: seq<byte>, cmd: int, arg: word, padding: byte)
    requires Sound(s) && Accessible(|user|, cmd, arg)
    ensures var t := Handle(s, user, cmd, arg, padding).state;
            && (Chars(t.read) == 0 || t.read == s.read) && (Chars(t.write) == 0 || t.write == s.write)
            && (cmd == TCSETSF || cmd == TCSETAF || (cmd == TCFLSH && (arg == 0 || arg == 2)) ==> Chars(t.read) == 0)
            && (cmd == TCFLSH && (arg == 1 || arg == 2) ==> Chars(t.write) == 0)
            && (t.read != s.read ==> cmd == TCSETSF || cmd == TCSETAF || (cmd == TCFLSH && arg != 1))
            && (t.write != s.write ==> cmd == TCFLSH && arg != 0)
            && (t.pgrp != s.pgrp ==> cmd == TIOCSPGRP)
            && (t.termios != s.termios ==> SetsTermios(cmd) || SetsTermio(cmd))
  {
  }

  /** A call together with the user memory that it finds. */
  datatype Request = Request(user: seq<byte>, cmd: int, arg: word, padding: byte)

  predicate Served(q: Request) {
    Accessible(|q.user|, q.cmd, q.arg)
  }

  /** The terminal after a run of calls; between them processes may do to their memory what they like. */
  function Serve(s: State, qs: seq<Request>): (s': State)
    requires Sound(s) && forall i :: 0 <= i < |qs| ==> Served(qs[i])
    ensures Sound(s')
    decreases |qs|
  {
    if qs == [] then s else
      assert Served(qs[0]);
      Serve(Handle(s, qs[0].user, qs[0].cmd, qs[0].arg, qs[0].padding).state, qs[1..])
  }

  /** A queue is as it was, or empty because its head has met its tail. */
  predicate OnlyFlushed(q: Indices, q': Indices) {
    q'.tail == q.tail && (q'.head == q.head || q'.head == q'.tail)
  }

  lemma {:induction false} QueuesAreOnlyFlushed(s: State, qs: seq<Request>)
    requires Sound(s) && forall i :: 0 <= i < |qs| ==> Served(qs[i])
    ensures OnlyFlushed(s.read, Serve(s, qs).read) && OnlyFlushed(s.write, Serve(s, qs).write)
    decreases |qs|
  {
    if qs == [] {
    } else {
      QueuesAreOnlyFlushed(Handle(s, qs[0].user, qs[0].cmd, qs[0].arg, qs[0].padding).state, qs[1..]);
    }
  }

  /** As long as nobody sets a whole struct termios, what termio does not show stays what it is. */
  lemma {:induction false} HiddenSettingsStay(s: State, qs: seq<Request>, i: nat)
    requires Sound(s) && forall k :: 0 <= k < |qs| ==> Served(qs[k]) && !SetsTermios(qs[k].cmd)
    requires Hidden(i) && i < TERMIOS_SIZE
    ensures Serve(s, qs).termios[i] == s.termios[i]
    decreases |qs|
  {
    if qs == [] {
    } else {
      var q := qs[0];
      if SetsTermio(q.cmd) { UpdateKeepsHidden(s.termios, q.user[q.arg..q.arg + VIEW_SIZE], i); }
      HiddenSettingsStay(Handle(s, q.user, q.cmd, q.arg, q.padding).state, qs[1..], i);
    }
  }
}
