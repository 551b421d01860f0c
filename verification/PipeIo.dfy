/**
 * read_pipe and write_pipe of fs/pipe.c. What others do while a process sleeps is a
 * parameter: a pipe's ends are shared after a fork, so others may both put and get.
 */
module PipeIo {
  import opened Bytes
  import opened Pipe

  /** While a process sleeps: what others want to do to the pipe, and how many users are left. */
  datatype Nap = Nap(ops: seq<Op>, users: int)

  /** A byte put into the pipe, by the caller or by somebody else. */
  datatype Arrival = Arrival(b: byte, mine: bool)

  function Stream(arrived: seq<Arrival>): (s: seq<byte>)
    ensures |s| == |arrived|
  {
    seq(|arrived|, i requires 0 <= i < |arrived| => arrived[i].b)
  }

  /** The caller's own bytes among those that arrived, in their order. */
  function Mine(arrived: seq<Arrival>): seq<byte> {
    if arrived == [] then []
    else
      var n := |arrived| - 1;
      Mine(arrived[..n]) + if arrived[n].mine then [arrived[n].b] else []
  }

  function Foreign(bytes: seq<byte>): (arrived: seq<Arrival>)
    ensures |arrived| == |bytes|
  {
    seq(|bytes|, i requires 0 <= i < |bytes| => Arrival(bytes[i], false))
  }

  lemma {:induction false} ForeignIsNotMine(bytes: seq<byte>)
    ensures Stream(Foreign(bytes)) == bytes && Mine(Foreign(bytes)) == []
    decreases |bytes|
  {
    if bytes == [] {
    } else {
      var n := |bytes| - 1;
      assert Foreign(bytes)[..n] == Foreign(bytes[..n]);
      ForeignIsNotMine(bytes[..n]);
    }
  }

  lemma {:induction false} Joined(a: seq<Arrival>, b: seq<Arrival>)
    ensures Stream(a + b) == Stream(a) + Stream(b) && Mine(a + b) == Mine(a) + Mine(b)
    decreases |b|
  {
    if b == [] {
      assert a + b == a;
    } else {
      var n := |b| - 1;
      assert (a + b)[..|a| + n] == a + b[..n];
      Joined(a, b[..n]);
    }
  }

  /** Two stretches of traffic, one after the other. */
  lemma Chain(q: seq<byte>, came: seq<byte>, taken: seq<byte>, q': seq<byte>,
              came': seq<byte>, taken': seq<byte>, q'': seq<byte>)
    requires q + came == taken + q' && q' + came' == taken' + q''
    ensures q + (came + came') == (taken + taken') + q''
  {
    assert q + (came + came') == (q + came) + came';
    assert (taken + q') + came' == taken + (q' + came');
    assert taken + (taken' + q'') == (taken + taken') + q'';
  }

  /** One more byte behind such a stretch. */
  lemma Append(q: seq<byte>, came: seq<byte>, taken: seq<byte>, q': seq<byte>, b: byte)
    requires q + came == taken + q'
    ensures q + (came + [b]) == taken + (q' + [b])
  {
    assert q + (came + [b]) == (q + came) + [b];
  }

  lemma OneMore(bytes: seq<byte>, k: nat)
    requires k < |bytes|
    ensures bytes[..k] + [] == bytes[..k] && bytes[..k] + [bytes[k]] == bytes[..k + 1]
  {
  }

  /** A byte b moved from the queue into position n of a buffer. */
  lemma OneDelivered(m0: seq<byte>, m: seq<byte>, n: nat, b: byte, q: seq<byte>, q': seq<byte>)
    requires n < |m| == |m0| && m[..n] + ([b] + q') == q && m[n..] == m0[n..]
    ensures m[n := b][..n + 1] + q' == q && m[n := b][n + 1..] == m0[n + 1..]
  {
    assert m[n := b][..n + 1] == m[..n] + [b];
    assert m[..n] + [b] + q' == m[..n] + ([b] + q');
    assert m[n..][1..] == m0[n..][1..];
  }

  /** The pipe as others see it. */
  datatype World = World(ring: Ring, users: int)

  /** How a wait ends: with what was waited for, with the other side gone, or not yet. */
  datatype End = Ready | Gone | Asleep

  datatype Wait = Wait(w: World, came: seq<byte>, taken: seq<byte>, rest: seq<Nap>, end: End)

  predicate Awaited(r: Ring, room: bool) {
    if room then !Full(r.head, r.tail) else !Empty(r.head, r.tail)
  }

  function AfterNap(w: World, nap: Nap): (w': World)
    requires Pipe.Valid(w.ring)
    ensures Pipe.Valid(w'.ring)
  {
    World(Run(w.ring, Possible(w.ring, nap.ops)), nap.users)
  }

  /** Waiting for room or for data: nobody sleeps who need not, or who would not be woken by the other side. */
  function Await(w: World, naps: seq<Nap>, room: bool): (o: Wait)
    requires Pipe.Valid(w.ring)
    ensures Pipe.Valid(o.w.ring)
    decreases |naps|
  {
    if Awaited(w.ring, room) then Wait(w, [], [], naps, Ready)
    else if w.users != 2 then Wait(w, [], [], naps, Gone)
    else if naps == [] then Wait(w, [], [], naps, Asleep)
    else
      var ops := Possible(w.ring, naps[0].ops);
      Later(Await(AfterNap(w, naps[0]), naps[1..], room), Brought(ops), Delivered(w.ring, ops))
  }

  /** What is to be seen of a wait behind some traffic. */
  function Later(wait: Wait, came: seq<byte>, taken: seq<byte>): Wait {
    wait.(came := came + wait.came, taken := taken + wait.taken)
  }

  lemma AwaitedMeans(r: Ring, room: bool)
    requires Pipe.Valid(r)
    ensures Awaited(r, room) <==> if room then |Queued(r)| < 4095 else |Queued(r)| > 0
  {
    SizeIs(r.head, r.tail);
  }

  lemma {:induction false} AwaitMeans(w: World, naps: seq<Nap>, room: bool)
    requires Pipe.Valid(w.ring)
    ensures var o := Await(w, naps, room);
            && Pipe.Valid(o.w.ring) && |o.rest| <= |naps|
            && Queued(w.ring) + o.came == o.taken + Queued(o.w.ring)
            && (o.end.Ready? <==> if room then |Queued(o.w.ring)| < 4095 else |Queued(o.w.ring)| > 0)
            && (o.end.Gone? ==> o.w.users != 2)
            && (o.end.Asleep? ==> o.w.users == 2 && o.rest == [])
            && ((if room then |Queued(w.ring)| < 4095 else |Queued(w.ring)| > 0) || w.users != 2 ==>
                  o.w == w && o.came == o.taken == [] && o.rest == naps)
    decreases |naps|
  {
    var q := Queued(w.ring);
    AwaitedMeans(w.ring, room);
    assert q + [] == [] + q;
    if Awaited(w.ring, room) || w.users != 2 || naps == [] {
    } else {
      var ops, w' := Possible(w.ring, naps[0].ops), AfterNap(w, naps[0]);
      var o := Await(w', naps[1..], room);
      PossibleRuns(w.ring, naps[0].ops);
      NothingLost(w.ring, ops);
      AwaitMeans(w', naps[1..], room);
      Chain(q, Brought(ops), Delivered(w.ring, ops), Queued(w'.ring), o.came, o.taken, Queued(o.w.ring));
    }
  }

  /** A process that waits is woken by what it waits for, and by the other side going. */
  lemma WakeUps(w: World, rest: seq<Nap>, b: byte, users: int)
    requires Pipe.Valid(w.ring) && w.users == 2
    ensures |Queued(w.ring)| == 0 ==>
              var o := Await(w, [Nap([Put(b)], users)] + rest, false);
              && o.end.Ready? && o.came == [b] && o.taken == [] && Queued(o.w.ring) == [b]
              && o.w.users == users && o.rest == rest
    ensures |Queued(w.ring)| == 4095 ==>
              var o := Await(w, [Nap([Get], users)] + rest, true);
              && o.end.Ready? && o.came == [] && o.taken == Queued(w.ring)[..1]
              && Queued(o.w.ring) == Queued(w.ring)[1..] && o.w.users == users && o.rest == rest
    ensures |Queued(w.ring)| == 0 && users != 2 ==>
              Await(w, [Nap([], users)] + rest, false) == Wait(w.(users := users), [], [], rest, Gone)
    ensures |Queued(w.ring)| == 4095 && users != 2 ==>
              Await(w, [Nap([], users)] + rest, true) == Wait(w.(users := users), [], [], rest, Gone)
  {
    AwaitedMeans(w.ring, true);
    AwaitedMeans(w.ring, false);
    if |Queued(w.ring)| == 0 {
      PutWakes(w, rest, b, users);
      if users != 2 { NothingWakes(w, rest, users, false); }
    }
    if |Queued(w.ring)| == 4095 {
      GetWakes(w, rest, users);
      if users != 2 { NothingWakes(w, rest, users, true); }
    }
  }

  lemma OneNapAt(w: World, nap: Nap, rest: seq<Nap>, room: bool)
    requires Pipe.Valid(w.ring) && !Awaited(w.ring, room) && w.users == 2
    ensures var ops := Possible(w.ring, nap.ops);
            Await(w, [nap] + rest, room)
            == Later(Await(AfterNap(w, nap), rest, room), Brought(ops), Delivered(w.ring, ops))
  {
    assert ([nap] + rest)[1..] == rest;
  }

  lemma OneOp(r: Ring, op: Op)
    requires Pipe.Valid(r)
    ensures Run(r, [op]) == Step(r, op)
    ensures Brought([op]) == if op.Put? then [op.b] else []
    ensures Delivered(r, [op]) == if op.Get? then [r.page[r.tail]] else []
  {
    assert [op][1..] == [];
  }

  lemma PutWakes(w: World, rest: seq<Nap>, b: byte, users: int)
    requires Pipe.Valid(w.ring) && w.users == 2 && |Queued(w.ring)| == 0
    ensures var o := Await(w, [Nap([Put(b)], users)] + rest, false);
            && o.end.Ready? && o.came == [b] && o.taken == [] && Queued(o.w.ring) == [b]
            && o.w.users == users && o.rest == rest
  {
    var nap, w' := Nap([Put(b)], users), AfterNap(w, Nap([Put(b)], users));
    AwaitedMeans(w.ring, false);
    StepIsFifo(w.ring, Put(b));
    OneNapAt(w, nap, rest, false);
    assert Possible(w.ring, nap.ops) == [Put(b)];
    OneOp(w.ring, Put(b));
    assert Queued(w.ring) + [b] == [b];
    AwaitedMeans(w'.ring, false);
  }

  lemma GetWakes(w: World, rest: seq<Nap>, users: int)
    requires Pipe.Valid(w.ring) && w.users == 2 && |Queued(w.ring)| == 4095
    ensures var o := Await(w, [Nap([Get], users)] + rest, true);
            && o.end.Ready? && o.came == [] && o.taken == Queued(w.ring)[..1]
            && Queued(o.w.ring) == Queued(w.ring)[1..] && o.w.users == users && o.rest == rest
  {
    var nap, w' := Nap([Get], users), AfterNap(w, Nap([Get], users));
    AwaitedMeans(w.ring, true);
    StepIsFifo(w.ring, Get);
    OneNapAt(w, nap, rest, true);
    assert Possible(w.ring, nap.ops) == [Get];
    OneOp(w.ring, Get);
    assert Queued(w.ring) == [w.ring.page[w.ring.tail]] + Queued(w'.ring);
    AwaitedMeans(w'.ring, true);
  }

  lemma NothingWakes(w: World, rest: seq<Nap>, users: int, room: bool)
    requires Pipe.Valid(w.ring) && w.users == 2 && !Awaited(w.ring, room) && users != 2
    ensures Await(w, [Nap([], users)] + rest, room) == Wait(w.(users := users), [], [], rest, Gone)
  {
    OneNapAt(w, Nap([], users), rest, room);
    assert AfterNap(w, Nap([], users)) == w.(users := users);
  }

  lemma LaterTwice(wait: Wait, c: seq<byte>, t: seq<byte>, came: seq<byte>, taken: seq<byte>)
    ensures Later(Later(wait, c, t), came, taken) == Later(wait, came + c, taken + t)
  {
    assert came + (c + wait.came) == (came + c) + wait.came;
    assert taken + (t + wait.taken) == (taken + t) + wait.taken;
  }

  /** One round of a wait. */
  lemma OneNap(w: World, rest: seq<Nap>, room: bool, c: seq<byte>, t: seq<byte>, came: seq<byte>, taken: seq<byte>)
    requires Pipe.Valid(w.ring) && !Awaited(w.ring, room) && w.users == 2 && rest != []
    requires c == Brought(Possible(w.ring, rest[0].ops)) && t == Delivered(w.ring, Possible(w.ring, rest[0].ops))
    ensures Later(Await(w, rest, room), came, taken)
            == Later(Await(AfterNap(w, rest[0]), rest[1..], room), came + c, taken + t)
  {
    LaterTwice(Await(AfterNap(w, rest[0]), rest[1..], room), c, t, came, taken);
  }

  /** One byte written, after a wait for room. */
  function WriteOne(w: World, b: byte, naps: seq<Nap>): (o: Wait)
    requires Pipe.Valid(w.ring)
    ensures Pipe.Valid(o.w.ring)
  {
    AwaitMeans(w, naps, true);
    var o := Await(w, naps, true);
    if o.end.Ready? then o.(w := o.w.(ring := Step(o.w.ring, Put(b))), came := o.came + [b]) else o
  }

  /** Bytes written one after the other until the readers are gone or the writer falls asleep for good. */
  function WriteAll(w: World, bytes: seq<byte>, naps: seq<Nap>): (o: Wait)
    requires Pipe.Valid(w.ring)
    ensures Pipe.Valid(o.w.ring)
    decreases |bytes|
  {
    if bytes == [] then Wait(w, [], [], naps, Ready)
    else
      var o := WriteOne(w, bytes[0], naps);
      if o.end.Ready? then Later(WriteAll(o.w, bytes[1..], o.rest), o.came, o.taken) else o
  }

  /** The first count bytes, none for a negative count. */
  function First(buf: seq<byte>, count: int): (s: seq<byte>)
    requires count <= |buf|
  {
    if count < 0 then [] else buf[..count]
  }

  /** What is still to be written, before and after one byte. */
  lemma NextOf(buf: seq<byte>, count: int, n: nat, next: nat)
    requires n < count <= |buf| && next == n + 1
    ensures var rest := First(buf, count)[n..];
            rest != [] && rest[0] == buf[n] && rest[1..] == First(buf, count)[next..]
  {
  }

  lemma OneWritten(w: World, bytes: seq<byte>, naps: seq<Nap>, came: seq<byte>, taken: seq<byte>)
    requires Pipe.Valid(w.ring) && bytes != []
    ensures var o := WriteOne(w, bytes[0], naps);
            Later(WriteAll(w, bytes, naps), came, taken)
            == if o.end.Ready? then Later(WriteAll(o.w, bytes[1..], o.rest), came + o.came, taken + o.taken)
               else o.(came := came + o.came, taken := taken + o.taken)
  {
    var o := WriteOne(w, bytes[0], naps);
    if o.end.Ready? { LaterTwice(WriteAll(o.w, bytes[1..], o.rest), o.came, o.taken, came, taken); }
  }

  lemma NothingYet(bytes: seq<byte>, whole: Wait)
    ensures bytes[0..] == bytes && Later(whole, [], []) == whole && Stream([]) == []
  {
    assert [] + whole.came == whole.came && [] + whole.taken == whole.taken;
  }

  lemma NothingLeft(bytes: seq<byte>, n: nat, came: seq<byte>, taken: seq<byte>)
    requires n == |bytes|
    ensures bytes[n..] == [] && came + [] == came && taken + [] == taken
  {
  }

  /** One turn of write_pipe in the whole of it. */
  lemma OneTurn(whole: Wait, buf: seq<byte>, count: int, n: nat, next: nat, w: World, naps: seq<Nap>,
                arrived: seq<Arrival>, taken: seq<byte>, came: seq<Arrival>, o: Wait)
    requires Pipe.Valid(w.ring) && n < count <= |buf| && next == n + 1
    requires whole == Later(WriteAll(w, First(buf, count)[n..], naps), Stream(arrived), taken)
    requires Mine(arrived) == buf[..n] && o == WriteOne(w, buf[n], naps)
    requires Stream(came) == o.came && Mine(came) == if o.end.Ready? then [buf[n]] else []
    ensures Pipe.Valid(o.w.ring) && Mine(arrived + came) == buf[..if o.end.Ready? then next else n]
    ensures whole == if o.end.Ready?
                     then Later(WriteAll(o.w, First(buf, count)[next..], o.rest), Stream(arrived + came),
                                taken + o.taken)
                     else o.(came := Stream(arrived + came), taken := taken + o.taken)
  {
    NextOf(buf, count, n, next);
    OneWritten(w, First(buf, count)[n..], naps, Stream(arrived), taken);
    Joined(arrived, came);
    OneMore(buf, n);
  }

  lemma WriteOneMeans(w: World, b: byte, naps: seq<Nap>)
    requires Pipe.Valid(w.ring)
    ensures var o := WriteOne(w, b, naps);
            && Queued(w.ring) + o.came == o.taken + Queued(o.w.ring)
            && (o.end.Gone? ==> o.w.users != 2 && Full(o.w.ring.head, o.w.ring.tail))
            && (o.end.Asleep? ==> o.w.users == 2 && Full(o.w.ring.head, o.w.ring.tail))
            && (|Queued(w.ring)| < 4095 ==> o.end.Ready? && o.came == [b] && o.taken == [] && o.rest == naps
                                             && o.w.users == w.users)
  {
    AwaitMeans(w, naps, true);
    var o := Await(w, naps, true);
    SizeIs(w.ring.head, w.ring.tail);
    if o.end.Ready? {
      StepIsFifo(o.w.ring, Put(b));
      Append(Queued(w.ring), o.came, o.taken, Queued(o.w.ring), b);
    }
  }

  lemma {:induction false} WriteAllMeans(w: World, bytes: seq<byte>, naps: seq<Nap>)
    requires Pipe.Valid(w.ring)
    ensures var o := WriteAll(w, bytes, naps);
            && Queued(w.ring) + o.came == o.taken + Queued(o.w.ring)
            && (o.end.Gone? ==> o.w.users != 2 && Full(o.w.ring.head, o.w.ring.tail))
            && (o.end.Asleep? ==> o.w.users == 2 && Full(o.w.ring.head, o.w.ring.tail))
    decreases |bytes|
  {
    if bytes == [] {
      assert Queued(w.ring) + [] == [] + Queued(w.ring);
    } else {
      var q, o := Queued(w.ring), WriteOne(w, bytes[0], naps);
      WriteOneMeans(w, bytes[0], naps);
      if o.end.Ready? {
        var later := WriteAll(o.w, bytes[1..], o.rest);
        WriteAllMeans(o.w, bytes[1..], o.rest);
        Chain(q, o.came, o.taken, Queued(o.w.ring), later.came, later.taken, Queued(later.w.ring));
      }
    }
  }

  /** With room for all bytes nobody waits. */
  lemma {:induction false} WriteAllWithRoom(w: World, bytes: seq<byte>, naps: seq<Nap>)
    requires Pipe.Valid(w.ring) && |Queued(w.ring)| + |bytes| <= 4095
    ensures var o := WriteAll(w, bytes, naps);
            o.end.Ready? && o.came == bytes && o.taken == [] && o.rest == naps && o.w.users == w.users
    decreases |bytes|
  {
    if bytes == [] {
    } else {
      var o := WriteOne(w, bytes[0], naps);
      WriteOneMeans(w, bytes[0], naps);
      assert |Queued(o.w.ring)| == |Queued(w.ring)| + 1;
      WriteAllWithRoom(o.w, bytes[1..], o.rest);
      var later := WriteAll(o.w, bytes[1..], o.rest);
      assert o.came + later.came == bytes && o.taken + later.taken == [];
    }
  }

  /** What others do in a nap: the ring they leave, the bytes they put and those they take. */
  datatype Traffic = Traffic(ring: Ring, came: seq<byte>, taken: seq<byte>)

  function TrafficOf(r: Ring, ops: seq<Op>): Traffic
    requires Pipe.Valid(r)
  {
    var done := Possible(r, ops);
    Traffic(Run(r, done), Brought(done), Delivered(r, done))
  }

  function Behind(t: Traffic, came: seq<byte>, taken: seq<byte>): Traffic {
    t.(came := came + t.came, taken := taken + t.taken)
  }

  /** One of the others, in a ring where it can be done or not. */
  function OneOther(r: Ring, op: Op): (t: Traffic)
    requires Pipe.Valid(r)
    ensures Pipe.Valid(t.ring)
  {
    if !Enabled(r, op) then Traffic(r, [], [])
    else if op.Put? then Traffic(Step(r, op), [op.b], [])
    else Traffic(Step(r, op), [], [r.page[r.tail]])
  }

  lemma FirstOther(r: Ring, ops: seq<Op>)
    requires Pipe.Valid(r) && ops != []
    ensures var t := OneOther(r, ops[0]); TrafficOf(r, ops) == Behind(TrafficOf(t.ring, ops[1..]), t.came, t.taken)
  {
    if Enabled(r, ops[0]) {
      var later := Possible(Step(r, ops[0]), ops[1..]);
      assert Possible(r, ops)[1..] == later;
    } else {
      var later := TrafficOf(r, ops[1..]);
      assert [] + later.came == later.came && [] + later.taken == later.taken;
    }
  }

  lemma BehindTwice(t: Traffic, c: seq<byte>, d: seq<byte>, came: seq<byte>, taken: seq<byte>)
    ensures Behind(Behind(t, c, d), came, taken) == Behind(t, came + c, taken + d)
  {
    assert came + (c + t.came) == (came + c) + t.came;
    assert taken + (d + t.taken) == (taken + d) + t.taken;
  }

  class PipeInode {
    const page: array<byte>
    var head: word
    var tail: word
    var users: int  // i_count

    constructor (page: array<byte>)
      requires page.Length == PAGE_SIZE
      ensures Valid() && Queue() == [] && users == 2
    {
      this.page, head, tail, users := page, 0, 0, 2;
    }

    ghost predicate Valid()
      reads this
    {
      page.Length == PAGE_SIZE && InRing(head) && InRing(tail)
    }

    ghost function Queue(): seq<byte>
      requires Valid()
      reads this, page
      ensures |Queue()| == Size(head, tail)
    {
      Contents(page[..], head, tail)
    }

    /** The ring as a value. */
    ghost function Now(): (r: Ring)
      requires Valid()
      reads this, page
      ensures Pipe.Valid(r) && Queued(r) == Queue()
      ensures r.page == page[..] && r.head == head && r.tail == tail
    {
      Ring(page[..], head, tail)
    }

    method PutByte(b: byte)
      requires Valid() && !Full(head, tail)
      modifies this`head, page
      ensures Valid() && Queue() == old(Queue()) + [b] && Now() == Step(old(Now()), Put(b))
    {
      PushAppends(page[..], head, tail, b);
      page[head] := b;
      head := Inc(head);
    }

    method GetByte() returns (b: byte)
      requires Valid() && !Empty(head, tail)
      modifies this`tail
      ensures Valid() && old(Queue()) == [b] + Queue() && Now() == Step(old(Now()), Get)
      ensures b == old(page[tail])
    {
      PopRemovesFirst(page[..], head, tail);
      b := page[tail];
      tail := Inc(tail);
    }

    /** One byte put or taken by somebody else, who has to wait when it cannot be done. */
    method Other(op: Op) returns (came: seq<byte>, taken: seq<byte>)
      requires Valid()
      modifies this`head, this`tail, page
      ensures Valid() && Traffic(Now(), came, taken) == OneOther(old(Now()), op)
    {
      came, taken := [], [];
      if op.Put? {
        if !Full(head, tail) {
          PutByte(op.b);
          came := [op.b];
        }
      } else if !Empty(head, tail) {
        var b := GetByte();
        taken := [b];
      }
    }

    /** Any number of others, one byte at a time. */
    method Others(ops: seq<Op>) returns (came: seq<byte>, taken: seq<byte>)
      requires Valid()
      modifies this`head, this`tail, page
      ensures Valid() && Traffic(Now(), came, taken) == TrafficOf(old(Now()), ops)
    {
      ghost var whole := TrafficOf(Now(), ops);
      came, taken := [], [];
      var rest := ops;
      while rest != []
        invariant Valid() && whole == Behind(TrafficOf(Now(), rest), came, taken)
        decreases |rest|
      {
        FirstOther(Now(), rest);
        ghost var t := OneOther(Now(), rest[0]);
        BehindTwice(TrafficOf(t.ring, rest[1..]), t.came, t.taken, came, taken);
        var c, d := Other(rest[0]);
        came, taken, rest := came + c, taken + d, rest[1..];
      }
    }

    /**
     * The inner loop of write_pipe. It ends with room in the ring, with the readers gone,
     * or with the writer asleep when the naps are used up.
     */
    method WaitForRoom(naps: seq<Nap>)
      returns (end: End, rest: seq<Nap>, came: seq<byte>, taken: seq<byte>)
      requires Valid()
      modifies this`head, this`tail, this`users, page
      ensures Valid()
      ensures Wait(World(Now(), users), came, taken, rest, end)
              == Await(old(World(Now(), users)), naps, true)
    {
      end, rest, came, taken := Ready, naps, [], [];
      ghost var whole := Await(World(Now(), users), naps, true);
      while Full(head, tail)
        invariant Valid() && whole == Later(Await(World(Now(), users), rest, true), came, taken)
        decreases |rest|
      {
        if users != 2 { return Gone, rest, came, taken; }
        if rest == [] { return Asleep, rest, came, taken; }
        ghost var w := World(Now(), users);
        var c, t := Others(rest[0].ops);
        users := rest[0].users;
        OneNap(w, rest, true, c, t, came, taken);
        came, taken, rest := came + c, taken + t, rest[1..];
      }
    }

    /** One turn of write_pipe: the wait for room and the byte. */
    method WriteByte(b: byte, naps: seq<Nap>)
      returns (end: End, rest: seq<Nap>, arrived: seq<Arrival>, taken: seq<byte>)
      requires Valid()
      modifies this`head, this`tail, this`users, page
      ensures Valid()
      ensures Wait(World(Now(), users), Stream(arrived), taken, rest, end)
              == WriteOne(old(World(Now(), users)), b, naps)
      ensures Mine(arrived) == if end.Ready? then [b] else []
    {
      AwaitMeans(World(Now(), users), naps, true);
      var came;
      end, rest, came, taken := WaitForRoom(naps);
      arrived := Foreign(came);
      ForeignIsNotMine(came);
      if end.Ready? {
        PutByte(b);
        Joined(arrived, [Arrival(b, true)]);
        arrived := arrived + [Arrival(b, true)];
      }
    }

    /** The outer loop of write_pipe. */
    method WriteLoop(buf: seq<byte>, count: int, naps: seq<Nap>)
      returns (end: End, n: nat, arrived: seq<Arrival>, taken: seq<byte>)
      requires Valid() && count <= |buf|
      modifies this`head, this`tail, this`users, page
      ensures Valid() && n <= |buf| && Mine(arrived) == buf[..n]
      ensures if end.Ready? then n == |First(buf, count)| else n < count
      ensures var o := WriteAll(old(World(Now(), users)), First(buf, count), naps);
              o.w == World(Now(), users) && o.came == Stream(arrived) && o.taken == taken && o.end == end
    {
      ghost var bytes := First(buf, count);
      ghost var whole := WriteAll(World(Now(), users), bytes, naps);
      end, n, arrived, taken := Ready, 0, [], [];
      var rest := naps;
      NothingYet(bytes, whole);
      while n < count
        invariant end.Ready? && Valid() && n <= |bytes| && Mine(arrived) == buf[..n]
        invariant whole == Later(WriteAll(World(Now(), users), bytes[n..], rest), Stream(arrived), taken)
        decreases count - n
      {
        var came, more;
        ghost var w, before := World(Now(), users), rest;
        end, rest, came, more := WriteByte(buf[n], rest);
        OneTurn(whole, buf, count, n, n + 1, w, before, arrived, taken, came, WriteOne(w, buf[n], before));
        arrived, taken := arrived + came, taken + more;
        if !end.Ready? { return; }
        n := n + 1;
      }
      NothingLeft(bytes, n, Stream(arrived), taken);
    }

    /**
     * write_pipe of count bytes from buf, of which n are written. Whatever is put and
     * taken by others meanwhile, the pipe stays a FIFO, and the caller's bytes are in it
     * in their order.
     */
    method WritePipe(buf: seq<byte>, count: int, naps: seq<Nap>)
      returns (res: int, sigpipe: bool, asleep: bool, n: nat, arrived: seq<Arrival>, taken: seq<byte>)
      requires Valid() && count <= |buf|
      modifies this`head, this`tail, this`users, page
      ensures Valid() && old(Queue()) + Stream(arrived) == taken + Queue()
      ensures n <= |buf| && Mine(arrived) == buf[..n]
      ensures old(users) != 2 ==> res == -1 && sigpipe && !asleep && n == 0 && arrived == [] && taken == []
      ensures old(users) == 2 && !asleep ==> res == n && (sigpipe <==> n < count)
      ensures sigpipe ==> users != 2
      ensures sigpipe && old(users) == 2 ==> Full(head, tail)
      ensures asleep ==> !sigpipe && n < count && users == 2 && Full(head, tail)
      ensures !asleep && !sigpipe ==> n == if count > 0 then count else 0
      ensures old(users) == 2 && old(|Queue()|) + count <= 4095 ==>
                !asleep && !sigpipe && users == 2 && Stream(arrived) == buf[..n] && taken == []
      ensures var o := WriteAll(old(World(Now(), users)), First(buf, count), naps);
              old(users) == 2 ==> o.w == World(Now(), users) && o.came == Stream(arrived) && o.taken == taken
                                  && (sigpipe <==> o.end.Gone?) && (asleep <==> o.end.Asleep?)
    {
      if users != 2 { return -1, true, false, 0, [], []; }
      ghost var w, bytes := World(Now(), users), First(buf, count);
      WriteAllMeans(w, bytes, naps);
      if |Queue()| + count <= 4095 { WriteAllWithRoom(w, bytes, naps); }
      var end;
      end, n, arrived, taken := WriteLoop(buf, count, naps);
      res, sigpipe, asleep := n, end.Gone?, end.Asleep?;
    }

    /** The first loop of read_pipe. */
    method WaitForData(naps: seq<Nap>)
      returns (end: End, rest: seq<Nap>, came: seq<byte>, taken: seq<byte>)
      requires Valid()
      modifies this`head, this`tail, this`users, page
      ensures Valid()
      ensures Wait(World(Now(), users), came, taken, rest, end)
              == Await(old(World(Now(), users)), naps, false)
    {
      end, rest, came, taken := Ready, naps, [], [];
      ghost var whole := Await(World(Now(), users), naps, false);
      while Empty(head, tail)
        invariant Valid() && whole == Later(Await(World(Now(), users), rest, false), came, taken)
        decreases |rest|
      {
        if users != 2 { return Gone, rest, came, taken; }
        if rest == [] { return Asleep, rest, came, taken; }
        ghost var w := World(Now(), users);
        var c, t := Others(rest[0].ops);
        users := rest[0].users;
        OneNap(w, rest, false, c, t, came, taken);
        came, taken, rest := came + c, taken + t, rest[1..];
      }
    }

    /** One turn of the second loop of read_pipe. */
    method DeliverByte(buf: array<byte>, n: nat) returns (b: byte)
      requires Valid() && buf != page && n < buf.Length && !Empty(head, tail)
      modifies this`tail, buf
      ensures Valid() && old(Queue()) == [b] + Queue() && buf[..] == old(buf[..])[n := b]
    {
      b := GetByte();
      ghost var q := Queue();
      buf[n] := b;
      assert Queue() == q;
    }

    /** The second loop of read_pipe: the bytes that are there, at most count of them, go to buf. */
    method Deliver(buf: array<byte>, count: nat) returns (n: nat)
      requires Valid() && buf != page && count <= buf.Length
      modifies this`tail, buf
      ensures Valid() && n <= count && buf[..][..n] + Queue() == old(Queue()) && buf[..][n..] == old(buf[..])[n..]
      ensures n < count ==> Empty(head, tail)
      ensures count > 0 && old(!Empty(head, tail)) ==> n > 0
    {
      ghost var q, m, m0 := Queue(), buf[..], buf[..];
      n := 0;
      assert m[..0] + q == q;
      while n < count && !Empty(head, tail)
        invariant Valid() && n <= count && buf[..] == m && |m| == |m0|
        invariant m[..n] + Queue() == q && m[n..] == m0[n..]
        invariant n == 0 ==> Empty(head, tail) == old(Empty(head, tail))
        decreases count - n
      {
        var b := DeliverByte(buf, n);
        OneDelivered(m0, m, n, b, q, Queue());
        m := m[n := b];
        n := n + 1;
      }
    }

    /**
     * read_pipe of at most count bytes into buf; nothing is read when count is not
     * positive. What others put and take while the caller sleeps comes before what it reads.
     */
    method ReadPipe(buf: array<byte>, count: int, naps: seq<Nap>)
      returns (res: nat, asleep: bool, came: seq<byte>, taken: seq<byte>)
      requires Valid() && buf != page && count <= buf.Length
      modifies this`head, this`tail, this`users, page, buf
      ensures Valid() && res <= if count > 0 then count else 0
      ensures old(Queue()) + came == taken + (buf[..res] + Queue()) && buf[res..] == old(buf[..])[res..]
      ensures asleep ==> res == 0 && users == 2 && Empty(head, tail)
      ensures !asleep && res < count ==> Empty(head, tail)
      ensures !asleep && res == 0 && count > 0 ==> users != 2
      ensures old(!Empty(head, tail) || users != 2) ==> !asleep && came == [] && taken == [] && users == old(users)
      ensures old(Empty(head, tail) && users != 2) ==> res == 0
      ensures var o := Await(old(World(Now(), users)), naps, false);
              && came == o.came && taken == o.taken && users == o.w.users && (asleep <==> o.end.Asleep?)
              && buf[..res] + Queue() == Queued(o.w.ring)
    {
      ghost var b0 := buf[..];
      var end, rest;
      AwaitMeans(World(Now(), users), naps, false);
      end, rest, came, taken := WaitForData(naps);
      asleep := end.Asleep?;
      assert buf[..] == b0 && buf[..0] + Queue() == Queue() && b0[0..] == b0 && buf[0..] == buf[..];
      if !end.Ready? { return 0, asleep, came, taken; }
      res := Deliver(buf, if count > 0 then count else 0);
      assert buf[..res] == buf[..][..res] && buf[res..] == buf[..][res..];
    }
  }
}
