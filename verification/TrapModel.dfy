/**
 * The machine that the exception entry points of kernel/asm.s and mm/page.s run on: the
 * registers, one kernel stack of 32-bit words, the instructions, and executions in which
 * exceptions arrive between instructions. The stack is the sequence of the words between
 * its base and esp, oldest first: what lies below esp is anybody's.
 */
module TrapModel {
  import opened Bytes

  datatype Option<T> = None | Some(value: T)

  datatype Registers = Registers(
    eax: word, ebx: word, ecx: word, edx: word, esi: word, edi: word, ebp: word,
    ds: word, es: word, fs: word, eflags: word)

  datatype Reg = Eax | Ebx | Ecx | Edx | Esi | Edi | Ebp | Ds | Es | Fs

  /** What a function works on: the registers, and the stack down to esp. */
  datatype Local = Local(r: Registers, stack: seq<word>)

  /** What a data segment shows at the addresses of current and last_task_used_math. */
  datatype Words = Words(current: word, lastTaskUsedMath: word)

  /** What the entry points read besides: two control registers and, through ds, two words of memory. */
  datatype System = System(cr0: word, cr2: word, kernel: Words, segments: map<word, Words>)

  datatype Source = Cr0 | Cr2 | Current | LastTaskUsedMath

  /** The C functions that the entry points call. */
  datatype Function =
    | DoDivideError | DoNmi | DoInt3 | DoOverflow | DoBounds | DoInvalidOp
    | DoDeviceNotAvailable | DoCoprocessorSegmentOverrun | DoReserved | DoCoprocessorError
    | DoDoubleFault | DoInvalidTss | DoSegmentNotPresent | DoStackSegment | DoGeneralProtection
    | DoNoPage | DoWpPage | MathStateRestore

  /** The two flags that a jump of the entry points tests. */
  datatype Flag = Carry | Zero

  datatype Target = Through(reg: Reg) | Direct(f: Function)

  /** A terminating execution, as the list of what it does. */
  datatype Code = Return | Then(step: Step, rest: Code)

  /**
   * One step: an instruction of the entry points, with the value that it reads or the way
   * that it jumps; what C code does (any new register values, any word of its stack
   * overwritten); or an exception that arrives, with the execution of its entry point.
   */
  datatype Step =
    | Push(v: word)
    | PushReg(reg: Reg)
    | PopReg(reg: Reg)
    | Discard(n: nat)                               // addl $4n,%esp
    | Exchange(reg: Reg, depth: nat)                // xchgl with the word at 4 * depth(%esp)
    | Lea(reg: Reg, depth: nat)                     // lea 4 * depth(%esp)
    | MovWord(reg: Reg, v: word)
    | Mov(to: Reg, from: Reg)
    | Read(reg: Reg, source: Source, v: word)       // movl from a control register or a variable
    | Compare(reg: Reg, source: Source, v: word)    // cmpl of a variable
    | BitTest(reg: Reg)                             // bt $2
    | TestOdd(reg: Reg)                             // testl $1
    | Jump(flag: Flag, up: bool)                    // the way the flag sends it
    | Clts
    | Call(target: Target, args: nat, handler: Code)
    | Load(r: Registers)
    | Store(index: nat, v: word)
    | SetSystem(sys: System)
    | Fault(vector: nat, code: word, eip: word, cs: word, seen: Reads, handler: Code, stub: Code)

  /** What an entry point reads on its way. */
  datatype Reads = Reads(cr0: word, cr2: word, words: Words)

  /** A call: its target, the words of arguments on top of the stack, registers and stack. */
  datatype Called = Called(target: word, args: nat, l: Local)

  /** The selector of the kernel data segment. */
  const KERNEL_DATA: word := 0x10

  /** What a call pushes; only the return uses it. */
  const RETURN: word := 0

  /** The vectors for which the processor pushes an error code. */
  predicate HasErrorCode(vector: nat) {
    vector == 8 || 10 <= vector <= 14
  }

  /** Where the linker put a function; all that matters is that no two share an address. */
  function AddressOf(f: Function): word {
    match f
    case DoDivideError => 1 case DoNmi => 2 case DoInt3 => 3 case DoOverflow => 4
    case DoBounds => 5 case DoInvalidOp => 6 case DoDeviceNotAvailable => 7
    case DoCoprocessorSegmentOverrun => 8 case DoReserved => 9 case DoCoprocessorError => 10
    case DoDoubleFault => 11 case DoInvalidTss => 12 case DoSegmentNotPresent => 13
    case DoStackSegment => 14 case DoGeneralProtection => 15
    case DoNoPage => 16 case DoWpPage => 17 case MathStateRestore => 18
  }

  lemma AddressesDiffer(f: Function, g: Function)
    ensures AddressOf(f) == AddressOf(g) <==> f == g
  {
  }

  /** The address of the stack word with this index; the stack grows downwards from base. */
  function At(base: word, index: int): word {
    Wrap(base - 4 * index)
  }

  function Get(q: Registers, reg: Reg): word {
    match reg
    case Eax => q.eax case Ebx => q.ebx case Ecx => q.ecx case Edx => q.edx
    case Esi => q.esi case Edi => q.edi case Ebp => q.ebp
    case Ds => q.ds case Es => q.es case Fs => q.fs
  }

  function Set(q: Registers, reg: Reg, v: word): Registers {
    match reg
    case Eax => q.(eax := v) case Ebx => q.(ebx := v) case Ecx => q.(ecx := v) case Edx => q.(edx := v)
    case Esi => q.(esi := v) case Edi => q.(edi := v) case Ebp => q.(ebp := v)
    case Ds => q.(ds := v) case Es => q.(es := v) case Fs => q.(fs := v)
  }

  predicate Holds(flag: Flag, eflags: word) {
    match flag
    case Carry => eflags % 2 == 1
    case Zero => eflags / 0x40 % 2 == 1
  }

  /** The number with these bits 7 and up, bit 6 and bits 0 to 5. */
  lemma BitSix(high: nat, bit: nat, low: nat)
    requires bit < 2 && low < 0x40
    ensures (high * 0x80 + bit * 0x40 + low) / 0x40 == 2 * high + bit
    ensures (2 * high + bit) % 2 == bit
  {
  }

  lemma BitsBelow(eflags: word, high: nat, bit: nat, low: nat)
    requires high == eflags / 0x80 && bit < 2 && low < 0x40
    ensures high * 0x80 + bit * 0x40 + low < WORD_LIMIT
  {
    assert high <= 0x1ff_ffff;
  }

  function Bit(b: bool): (v: nat)
    ensures v < 2
  {
    if b then 1 else 0
  }

  /** eflags with one flag set or cleared. */
  function WithFlag(flag: Flag, eflags: word, b: bool): (f: word)
    ensures Holds(flag, f) == b
  {
    match flag
    case Carry => eflags / 2 * 2 + Bit(b)
    case Zero =>
      var high, low := eflags / 0x80, eflags % 0x40;
      BitSix(high, Bit(b), low);
      BitsBelow(eflags, high, Bit(b), low);
      high * 0x80 + Bit(b) * 0x40 + low
  }

  /** The emulation bit of a copy of cr0. */
  predicate Emulated(cr0: word) {
    cr0 / 4 % 2 == 1
  }

  /** clts */
  function WithoutTaskSwitched(cr0: word): word {
    cr0 - cr0 / 8 % 2 * 8
  }

  /** Bit 2 of cr0. */
  lemma EmulationIsBitTwo(high: nat, bit: nat, low: nat)
    requires bit < 2 && low < 4 && 8 * high + 4 * bit + low < WORD_LIMIT
    ensures Emulated(8 * high + 4 * bit + low) <==> bit == 1
  {
  }

  /** Bit 3 of cr0, and no other, is cleared. */
  lemma TaskSwitchedIsBitThree(high: nat, bit: nat, low: nat)
    requires bit < 2 && low < 8 && 16 * high + 8 * bit + low < WORD_LIMIT
    ensures WithoutTaskSwitched(16 * high + 8 * bit + low) == 16 * high + low
  {
  }

  /** The carry flag is bit 0 of eflags, and no other bit changes with it. */
  lemma CarryIsBitZero(high: nat, bit: nat, b: bool)
    requires bit < 2 && 2 * high + bit < WORD_LIMIT
    ensures Holds(Carry, 2 * high + bit) <==> bit == 1
    ensures WithFlag(Carry, 2 * high + bit, b) == 2 * high + if b then 1 else 0
  {
  }

  /** The zero flag is bit 6. */
  lemma ZeroIsBitSix(high: nat, bit: nat, low: nat, b: bool)
    requires bit < 2 && low < 0x40 && 0x80 * high + 0x40 * bit + low < WORD_LIMIT
    ensures Holds(Zero, 0x80 * high + 0x40 * bit + low) <==> bit == 1
    ensures WithFlag(Zero, 0x80 * high + 0x40 * bit + low, b) == 0x80 * high + (if b then 0x40 else 0) + low
  {
    var f: word := 0x80 * high + 0x40 * bit + low;
    BitSix(high, bit, low);
    assert f / 0x80 == high && f % 0x40 == low;
  }

  /**
   * The two words as an instruction finds them through ds. A selector without a segment
   * raises an exception again and again, so no execution goes past such a load.
   */
  function Shown(sys: System, ds: word): Words {
    if ds == KERNEL_DATA then sys.kernel else if ds in sys.segments then sys.segments[ds] else Words(0, 0)
  }

  function Value(source: Source, sys: System, ds: word): word {
    match source
    case Cr0 => sys.cr0
    case Cr2 => sys.cr2
    case Current => Shown(sys, ds).current
    case LastTaskUsedMath => Shown(sys, ds).lastTaskUsedMath
  }

  function TargetOf(target: Target, q: Registers): word {
    match target
    case Through(reg) => Get(q, reg)
    case Direct(f) => AddressOf(f)
  }

  /** What the processor pushes of the interrupted code. */
  function ReturnFrame(l: Local, eip: word, cs: word): seq<word> {
    l.stack + [l.r.eflags, cs, eip]
  }

  /** At the first instruction of an entry point. */
  function Entered(vector: nat, code: word, s: seq<word>, q: Registers): Local {
    Local(q, if HasErrorCode(vector) then s + [code] else s)
  }

  /** Just behind a call instruction. */
  function Inside(l: Local): Local {
    l.(stack := l.stack + [RETURN])
  }

  // An execution on its own

  /** What a step does itself to the registers and the stack: for an exception, nothing. */
  function Effect(base: word, step: Step, l: Local): Local
    decreases step, 0
  {
    match step
    case Push(v) => l.(stack := l.stack + [v])
    case PushReg(reg) => l.(stack := l.stack + [Get(l.r, reg)])
    case PopReg(reg) => if l.stack == [] then l else
      Local(Set(l.r, reg, l.stack[|l.stack| - 1]), l.stack[..|l.stack| - 1])
    case Discard(n) => if |l.stack| < n then l else l.(stack := l.stack[..|l.stack| - n])
    case Exchange(reg, depth) => if |l.stack| <= depth then l else
      var i := |l.stack| - 1 - depth;
      Local(Set(l.r, reg, l.stack[i]), l.stack[i := Get(l.r, reg)])
    case Lea(reg, depth) => l.(r := Set(l.r, reg, At(base, |l.stack| - 1 - depth)))
    case MovWord(reg, v) => l.(r := Set(l.r, reg, v))
    case Mov(to, from) => l.(r := Set(l.r, to, Get(l.r, from)))
    case Read(reg, _, v) => l.(r := Set(l.r, reg, v))
    case Compare(reg, _, v) => l.(r := l.r.(eflags := WithFlag(Zero, l.r.eflags, Get(l.r, reg) == v)))
    case BitTest(reg) => l.(r := l.r.(eflags := WithFlag(Carry, l.r.eflags, Emulated(Get(l.r, reg)))))
    case TestOdd(reg) => l.(r := l.r.(eflags := WithFlag(Zero, l.r.eflags, Get(l.r, reg) % 2 == 0)))
    case Jump(_, _) => l
    case Clts => l
    case Call(_, _, handler) => Returned(Alone(base, handler, Inside(l)))
    case Load(q) => l.(r := q)
    case Store(i, v) => if i < |l.stack| then l.(stack := l.stack[i := v]) else l
    case SetSystem(_) => l
    case Fault(_, _, _, _, _, _, _) => l
  }

  /** ret */
  function Returned(l: Local): Local {
    if l.stack == [] then l else l.(stack := l.stack[..|l.stack| - 1])
  }

  /** The execution with every exception left out. */
  function Alone(base: word, body: Code, l: Local): Local
    decreases body, 0
  {
    match body
    case Return => l
    case Then(step, rest) => Alone(base, rest, Effect(base, step, l))
  }

  /** No step of a function changes a word below floor or its return address, which is at index sp. */
  predicate StaysInFrame(base: word, body: Code, l: Local, floor: nat, sp: nat)
    requires floor <= sp < |l.stack|
    decreases body
  {
    match body
    case Return => true
    case Then(step, rest) =>
      var m := Effect(base, step, l);
      && sp < |m.stack| && m.stack[sp] == l.stack[sp] && m.stack[..floor] == l.stack[..floor]
      && StaysInFrame(base, rest, m, floor, sp)
  }

  /** q with the registers that a C function may destroy taken from q'. */
  function Clobbered(q: Registers, q': Registers): Registers {
    q.(eax := q'.eax, ecx := q'.ecx, edx := q'.edx, eflags := q'.eflags)
  }

  /**
   * The C convention for a function that is called at l, its exceptions left out: it
   * returns on its return address, with ebx, esi, edi, ebp and the segment registers as
   * they were, and writes to no word of its callers but its arguments.
   */
  predicate KeepsConvention(base: word, handler: Code, l: Local, args: nat) {
    var sp, end := |l.stack|, Alone(base, handler, Inside(l));
    && args <= sp
    && StaysInFrame(base, handler, Inside(l), sp - args, sp)
    && |end.stack| == sp + 1
    && end.r == Clobbered(l.r, end.r)
  }

  /** What the convention lets a function do: any eax, ecx, edx and flags, any word in an argument. */
  lemma ConventionAllows(base: word, l: Local, args: nat, q: Registers, i: nat, v: word)
    requires args <= |l.stack| && |l.stack| - args <= i < |l.stack|
    requires q == l.r.(eax := q.eax, ecx := q.ecx, edx := q.edx, eflags := q.eflags)
    ensures KeepsConvention(base, Then(Load(q), Then(Store(i, v), Return)), l, args)
  {
    var body, sp := Then(Load(q), Then(Store(i, v), Return)), |l.stack|;
    var l1 := Effect(base, Load(q), Inside(l));
    var l2 := Effect(base, Store(i, v), l1);
    assert Alone(base, body, Inside(l)) == Alone(base, body.rest, l1) == l2;
    assert l2.stack[..sp - args] == l1.stack[..sp - args];
    assert StaysInFrame(base, body.rest, l1, sp - args, sp);
  }

  /** What it promises: the other registers, the return address on top, the words below the arguments. */
  lemma ConventionMeans(base: word, handler: Code, l: Local, args: nat)
    requires KeepsConvention(base, handler, l, args)
    ensures var r, end := l.r, Alone(base, handler, Inside(l));
            && end.r.ebx == r.ebx && end.r.esi == r.esi && end.r.edi == r.edi && end.r.ebp == r.ebp
            && end.r.ds == r.ds && end.r.es == r.es && end.r.fs == r.fs
            && args <= |l.stack| && |end.stack| == |l.stack| + 1 && end.stack[|l.stack|] == RETURN
            && forall i :: 0 <= i < |l.stack| - args ==> end.stack[i] == l.stack[i]
  {
    var n, end := |l.stack| - args, Alone(base, handler, Inside(l));
    AloneKeepsFrame(base, handler, Inside(l), n, |l.stack|);
    forall i | 0 <= i < n ensures end.stack[i] == l.stack[i] {
      assert end.stack[..n][i] == Inside(l).stack[..n][i];
    }
  }

  /** A function's own steps leave its callers' words and the return address alone. */
  lemma {:induction false} AloneKeepsFrame(base: word, body: Code, l: Local, floor: nat, sp: nat)
    requires floor <= sp < |l.stack| && StaysInFrame(base, body, l, floor, sp)
    ensures var end := Alone(base, body, l).stack;
            sp < |end| && end[..floor] == l.stack[..floor] && end[sp] == l.stack[sp]
    decreases body
  {
    match body
    case Return =>
    case Then(step, rest) => AloneKeepsFrame(base, rest, Effect(base, step, l), floor, sp);
  }

  /**
   * A step is possible: the words that it works on are there, a jump goes the way of its
   * flag, and a called function, as well as those it calls, keeps the convention.
   */
  predicate StepSteady(base: word, step: Step, l: Local)
    decreases step, 0
  {
    match step
    case PopReg(_) => l.stack != []
    case Discard(n) => n <= |l.stack|
    case Exchange(_, depth) => depth < |l.stack|
    case Jump(flag, up) => Holds(flag, l.r.eflags) == up
    case Call(_, args, handler) => KeepsConvention(base, handler, l, args) && Steady(base, handler, Inside(l))
    case Store(i, _) => i < |l.stack|
    case _ => true
  }

  /** All steps of the execution alone are possible. */
  predicate Steady(base: word, body: Code, l: Local)
    decreases body, 0
  {
    match body
    case Return => true
    case Then(step, rest) => StepSteady(base, step, l) && Steady(base, rest, Effect(base, step, l))
  }

  /** The calls that the execution makes itself. */
  function OwnCalls(base: word, body: Code, l: Local): seq<Called> {
    match body
    case Return => []
    case Then(step, rest) =>
      (if step.Call? then [Called(TargetOf(step.target, l.r), step.args, l)] else [])
      + OwnCalls(base, rest, Effect(base, step, l))
  }

  function FaultFree(body: Code): Code {
    match body
    case Return => Return
    case Then(step, rest) => if step.Fault? then FaultFree(rest) else Then(step, FaultFree(rest))
  }

  /** Wherever exceptions arrive, the execution alone is the one without them. */
  lemma {:induction false} FaultFreeIsAlone(base: word, body: Code, l: Local)
    ensures Alone(base, FaultFree(body), l) == Alone(base, body, l)
    ensures Steady(base, FaultFree(body), l) == Steady(base, body, l)
    ensures OwnCalls(base, FaultFree(body), l) == OwnCalls(base, body, l)
    decreases body
  {
    match body
    case Return =>
    case Then(step, rest) => FaultFreeIsAlone(base, rest, Effect(base, step, l));
  }

  // Whole executions, with their exceptions

  /** The system state behind a step, all that its handlers and exceptions do included. */
  function SystemAfterStep(step: Step, sys: System): System
    decreases step, 0
  {
    match step
    case Clts => sys.(cr0 := WithoutTaskSwitched(sys.cr0))
    case Call(_, _, handler) => SystemAfter(handler, sys)
    case SetSystem(t) => t
    case Fault(_, _, _, _, _, _, stub) => SystemAfter(stub, sys)
    case _ => sys
  }

  function SystemAfter(body: Code, sys: System): System
    decreases body, 0
  {
    match body
    case Return => sys
    case Then(step, rest) => SystemAfter(rest, SystemAfterStep(step, sys))
  }

  /** All calls, first to last, made by a step and by the exceptions in it. */
  function CallsOfStep(base: word, step: Step, l: Local): seq<Called>
    decreases step, 0
  {
    match step
    case Call(target, args, handler) =>
      [Called(TargetOf(target, l.r), args, l)] + CallsWithin(base, handler, Inside(l))
    case Fault(vector, code, eip, cs, _, _, stub) =>
      CallsWithin(base, stub, Entered(vector, code, ReturnFrame(l, eip, cs), l.r))
    case _ => []
  }

  function CallsWithin(base: word, body: Code, l: Local): seq<Called>
    decreases body, 0
  {
    match body
    case Return => []
    case Then(step, rest) => CallsOfStep(base, step, l) + CallsWithin(base, rest, Effect(base, step, l))
  }

  /** The calls that an execution makes itself are among all that are made. */
  lemma {:induction false} OwnCallsAreMade(base: word, body: Code, l: Local, c: Called)
    requires c in OwnCalls(base, body, l)
    ensures c in CallsWithin(base, body, l)
    decreases body
  {
    match body
    case Return =>
    case Then(step, rest) =>
      var m := Effect(base, step, l);
      if c in OwnCalls(base, rest, m) {
        OwnCallsAreMade(base, rest, m, c);
      } else {
        assert c == CallsOfStep(base, step, l)[0];
      }
  }
}
