/**
 * Exceptions on the running machine, arriving between any two instructions of a handler or
 * of an entry point. That each function keeps the C convention is a precondition, on its
 * own steps only: what an exception does to the code that it interrupts is for the entry
 * points to make good.
 */
module Traps {
  import opened Bytes
  import opened TrapModel
  import opened TrapText

  /**
   * A step belongs to an execution in the system state sys: what it reads is there, and an
   * exception runs the text of its entry point, exceptions aside, around a function that
   * keeps the C convention.
   */
  predicate StepLegal(base: word, step: Step, l: Local, sys: System)
    decreases step, 0
  {
    match step
    case Read(_, source, v) => v == Value(source, sys, l.r.ds)
    case Compare(_, source, v) => v == Value(source, sys, l.r.ds)
    case Call(_, _, handler) => Legal(base, handler, Inside(l), sys)
    case Fault(vector, code, eip, cs, seen, handler, stub) =>
      ExceptionLegal(base, vector, code, l, eip, cs, seen, handler, stub, sys)
    case _ => true
  }

  predicate ExceptionLegal(base: word, vector: nat, code: word, l: Local, eip: word, cs: word, seen: Reads,
                           handler: Code, stub: Code, sys: System)
    decreases stub, 2
  {
    StubLegal(base, vector, code, ReturnFrame(l, eip, cs), l.r, seen, handler, stub, sys)
  }

  /** An entry point, on the return frame s and with the registers q. */
  predicate StubLegal(base: word, vector: nat, code: word, s: seq<word>, q: Registers, seen: Reads, handler: Code,
                      stub: Code, sys: System)
    decreases stub, 1
  {
    && FaultFree(stub) == Text(EntryAt(vector), code, seen, handler)
    && HandlerKeeps(base, Invoked(base, EntryAt(vector), code, s, q, seen), handler)
    && Legal(base, stub, Entered(vector, code, s, q), sys)
  }

  predicate Legal(base: word, body: Code, l: Local, sys: System)
    decreases body, 0
  {
    match body
    case Return => true
    case Then(step, rest) =>
      StepLegal(base, step, l, sys) && Legal(base, rest, Effect(base, step, l), SystemAfterStep(step, sys))
  }

  /** What the text of an entry point does, it does with exceptions between its instructions as well. */
  lemma InterruptedStubRestores(base: word, vector: nat, code: word, s: seq<word>, q: Registers, seen: Reads,
                                handler: Code, stub: Code)
    requires FaultFree(stub) == Text(EntryAt(vector), code, seen, handler)
    requires HandlerKeeps(base, Invoked(base, EntryAt(vector), code, s, q, seen), handler)
    ensures var l := Entered(vector, code, s, q);
            var end := Alone(base, stub, l);
            && Steady(base, stub, l)
            && OwnCalls(base, stub, l) == AsList(Invoked(base, EntryAt(vector), code, s, q, seen))
            && end.stack == s && end.r == q.(eflags := end.r.eflags)
  {
    var l := Entered(vector, code, s, q);
    StubRestores(base, vector, code, s, q, seen, handler);
    RestoresMeans(base, FaultFree(stub), l, AsList(Invoked(base, EntryAt(vector), code, s, q, seen)), s, q);
    FaultFreeIsAlone(base, stub, l);
  }

  /** The right function is called on the right frame, among the calls that interrupting exceptions lead to. */
  lemma TheCallIsMade(base: word, vector: nat, code: word, s: seq<word>, q: Registers, seen: Reads, handler: Code,
                      stub: Code, sys: System, c: Called)
    requires StubLegal(base, vector, code, s, q, seen, handler, stub, sys)
    requires Invoked(base, EntryAt(vector), code, s, q, seen) == Some(c)
    ensures c in CallsWithin(base, stub, Entered(vector, code, s, q))
  {
    InterruptedStubRestores(base, vector, code, s, q, seen, handler, stub);
    OwnCallsAreMade(base, stub, Entered(vector, code, s, q), c);
  }

  class Processor {
    const base: word  // the address of the first stack word
    var r: Registers
    var stack: seq<word>
    var eip: word
    var cs: word
    var sys: System
    ghost var calls: seq<Called>

    constructor (base: word, r: Registers, sys: System)
      ensures this.base == base && this.r == r && this.sys == sys && stack == [] && calls == []
    {
      this.base, this.r, this.sys, stack := base, r, sys, [];
      eip, cs, calls := 0, 0, [];
    }

    method Pop() returns (v: word)
      requires stack != []
      modifies this`stack
      ensures stack == old(stack[..|stack| - 1]) && v == old(stack[|stack| - 1])
    {
      v := stack[|stack| - 1];
      stack := stack[..|stack| - 1];
    }

    /**
     * An execution with the exceptions that arrive in it. It ends with the registers and
     * the stack that it leads to when they are left out.
     */
    method Run(body: Code)
      requires Steady(base, body, Local(r, stack)) && Legal(base, body, Local(r, stack), sys)
      modifies this
      ensures Local(r, stack) == Alone(base, body, old(Local(r, stack)))
      ensures sys == SystemAfter(body, old(sys))
      ensures calls == old(calls) + CallsWithin(base, body, old(Local(r, stack)))
      decreases body, 0
    {
      if body.Then? {
        Perform(body.step);
        Run(body.rest);
      }
    }

    method Perform(step: Step)
      requires StepSteady(base, step, Local(r, stack)) && StepLegal(base, step, Local(r, stack), sys)
      modifies this
      ensures Local(r, stack) == Effect(base, step, old(Local(r, stack)))
      ensures sys == SystemAfterStep(step, old(sys))
      ensures calls == old(calls) + CallsOfStep(base, step, old(Local(r, stack)))
      decreases step, 0
    {
      match step {
        case Call(target, args, handler) => Invoke(target, args, handler);
        case Fault(vector, code, ip, seg, seen, handler, stub) =>
          eip, cs := ip, seg;
          Exception(vector, code, seen, handler, stub);
        case _ => Execute(step);
      }
    }

    /** One instruction or one step of C code. */
    method Execute(step: Step)
      requires !step.Call? && !step.Fault?
      modifies this`r, this`stack, this`sys
      ensures Local(r, stack) == Effect(base, step, old(Local(r, stack)))
      ensures sys == SystemAfterStep(step, old(sys))
    {
      var l := Effect(base, step, Local(r, stack));
      r, stack := l.r, l.stack;
      if step.Clts? {
        sys := sys.(cr0 := WithoutTaskSwitched(sys.cr0));
      } else if step.SetSystem? {
        sys := step.sys;
      }
    }

    /** A call: the return address is pushed, the function runs, and its return pops what is on top. */
    method Invoke(target: Target, args: nat, handler: Code)
      requires KeepsConvention(base, handler, Local(r, stack), args)
      requires Steady(base, handler, Inside(Local(r, stack))) && Legal(base, handler, Inside(Local(r, stack)), sys)
      modifies this
      ensures Local(r, stack) == Returned(Alone(base, handler, Inside(old(Local(r, stack)))))
      ensures r == Clobbered(old(r), r) && |stack| == |old(stack)|
      ensures stack[..|stack| - args] == old(stack)[..|stack| - args]
      ensures sys == SystemAfter(handler, old(sys))
      ensures calls == old(calls) + [Called(TargetOf(target, old(r)), args, old(Local(r, stack)))]
                       + CallsWithin(base, handler, Inside(old(Local(r, stack))))
      decreases handler, 1
    {
      ghost var l, n := Local(r, stack), |stack| - args;
      ghost var call := Call(target, args, handler);
      AfterCall(base, call, l, Effect(base, call, l), n);
      calls := calls + [Called(TargetOf(target, r), args, l)];
      stack := stack + [RETURN];
      Run(handler);
      var address := Pop();
    }

    /** What the processor pushes on its way into an entry point. */
    method Enter(vector: nat, code: word)
      modifies this`stack
      ensures Local(r, stack) == Entered(vector, code, ReturnFrame(old(Local(r, stack)), eip, cs), r)
    {
      stack := stack + [r.eflags, cs, eip];
      if HasErrorCode(vector) { stack := stack + [code]; }
    }

    /** iret to a context of the same privilege. */
    method Iret(ghost l: Local, ghost ip: word, ghost seg: word)
      requires stack == ReturnFrame(l, ip, seg)
      modifies this`stack, this`eip, this`cs, this`r
      ensures stack == l.stack && r == old(r).(eflags := l.r.eflags) && cs == seg && eip == ip
    {
      eip := Pop();
      cs := Pop();
      var eflags := Pop();
      r := r.(eflags := eflags);
      assert stack == l.stack;
    }

    /** An entry point up to iret, for an exception at l, with the exceptions that arrive in it. */
    method RunStub(ghost vector: nat, ghost code: word, ghost l: Local, ghost ip: word, ghost seg: word,
                   ghost seen: Reads, ghost handler: Code, stub: Code)
      requires StepLegal(base, Fault(vector, code, ip, seg, seen, handler, stub), l, sys)
      requires Local(r, stack) == Entered(vector, code, ReturnFrame(l, ip, seg), l.r)
      modifies this
      ensures r == l.r.(eflags := r.eflags) && stack == ReturnFrame(l, ip, seg)
      ensures sys == SystemAfter(stub, old(sys))
      ensures calls == old(calls) + CallsWithin(base, stub, Entered(vector, code, ReturnFrame(l, ip, seg), l.r))
      decreases stub, 1
    {
      assert ExceptionLegal(base, vector, code, l, ip, seg, seen, handler, stub, sys);
      assert StubLegal(base, vector, code, ReturnFrame(l, ip, seg), l.r, seen, handler, stub, sys);
      InterruptedStubRestores(base, vector, code, ReturnFrame(l, ip, seg), l.r, seen, handler, stub);
      Run(stub);
    }

    /**
     * An exception in kernel code, with any exceptions between the instructions of its own
     * entry point and of its handler: the processor's pushes, the entry point, and iret.
     */
    method Exception(vector: nat, code: word, seen: Reads, handler: Code, stub: Code)
      requires StepLegal(base, Fault(vector, code, eip, cs, seen, handler, stub), Local(r, stack), sys)
      modifies this
      ensures r == old(r) && stack == old(stack) && eip == old(eip) && cs == old(cs)
      ensures sys == SystemAfter(stub, old(sys))
      ensures calls == old(calls)
                       + CallsWithin(base, stub, Entered(vector, code, ReturnFrame(old(Local(r, stack)), eip, cs), r))
      decreases stub, 2
    {
      ghost var l, ip, seg := Local(r, stack), eip, cs;
      Enter(vector, code);
      RunStub(vector, code, l, ip, seg, seen, handler, stub);
      Iret(l, ip, seg);
    }

    /** The same from user mode: the processor first pushes ss and esp, and iret pops them last. */
    method UserException(ss: word, esp: word, vector: nat, code: word, seen: Reads, handler: Code, stub: Code)
      returns (ss': word, esp': word)
      requires stack == []
      requires StepLegal(base, Fault(vector, code, eip, cs, seen, handler, stub), Local(r, [ss, esp]), sys)
      modifies this
      ensures ss' == ss && esp' == esp && r == old(r) && stack == [] && eip == old(eip) && cs == old(cs)
      ensures sys == SystemAfter(stub, old(sys))
      ensures calls == old(calls)
                       + CallsWithin(base, stub, Entered(vector, code, ReturnFrame(Local(r, [ss, esp]), eip, cs), r))
    {
      stack := [ss, esp];
      Exception(vector, code, seen, handler, stub);
      esp' := Pop();
      ss' := Pop();
    }
  }

  // _device_not_available and the interrupted data segment

  /** What an entry point reads when no exception interferes. */
  function ReadsIn(sys: System, ds: word): Reads {
    Reads(sys.cr0, sys.cr2, Shown(sys, ds))
  }

  lemma LegalThen(base: word, step: Step, rest: Code, l: Local, sys: System, m: Local, sys': System)
    requires m == Effect(base, step, l) && sys' == SystemAfterStep(step, sys)
    ensures Legal(base, Then(step, rest), l, sys) <==> StepLegal(base, step, l, sys) && Legal(base, rest, m, sys')
  {
  }

  /** A read into eax. */
  lemma LegalRead(base: word, source: Source, v: word, rest: Code, l: Local, sys: System, m: Local)
    requires m == Local(l.r.(eax := v), l.stack)
    ensures Legal(base, Then(Read(Eax, source, v), rest), l, sys)
            <==> v == Value(source, sys, l.r.ds) && Legal(base, rest, m, sys)
  {
    LegalThen(base, Read(Eax, source, v), rest, l, sys, m, sys);
  }

  /** bt and the jump behind it. */
  lemma LegalBitTest(base: word, up: bool, rest: Code, l: Local, sys: System, m: Local)
    requires m == Local(l.r.(eflags := WithFlag(Carry, l.r.eflags, Emulated(l.r.eax))), l.stack)
    ensures Legal(base, Then(BitTest(Eax), Then(Jump(Carry, up), rest)), l, sys) <==> Legal(base, rest, m, sys)
  {
    LegalThen(base, BitTest(Eax), Then(Jump(Carry, up), rest), l, sys, m, sys);
    LegalThen(base, Jump(Carry, up), rest, m, sys, m, sys);
  }

  /** cmpl and the jump behind it. */
  lemma LegalCompare(base: word, v: word, up: bool, rest: Code, l: Local, sys: System, m: Local)
    requires m == Local(l.r.(eflags := WithFlag(Zero, l.r.eflags, l.r.eax == v)), l.stack)
    ensures Legal(base, Then(Compare(Eax, LastTaskUsedMath, v), Then(Jump(Zero, up), rest)), l, sys)
            <==> v == Shown(sys, l.r.ds).lastTaskUsedMath && Legal(base, rest, m, sys)
  {
    LegalThen(base, Compare(Eax, LastTaskUsedMath, v), Then(Jump(Zero, up), rest), l, sys, m, sys);
    LegalThen(base, Jump(Zero, up), rest, m, sys, m, sys);
  }

  /** The first part of _device_not_available is possible exactly when cr0 is what it reads. */
  lemma LegalMathTest(base: word, cr0: word, rest: Code, s: seq<word>, q: Registers, sys: System, m: Local)
    requires m == Local(q.(eax := cr0, eflags := WithFlag(Carry, q.eflags, Emulated(cr0))), s + [q.eax])
    ensures Legal(base, Then(PushReg(Eax), Then(Read(Eax, Cr0, cr0), Then(BitTest(Eax),
                    Then(Jump(Carry, Emulated(cr0)), rest)))), Local(q, s), sys)
            <==> cr0 == sys.cr0 && Legal(base, rest, m, sys)
  {
    var test := Then(BitTest(Eax), Then(Jump(Carry, Emulated(cr0)), rest));
    var l1 := Local(q, s + [q.eax]);
    var l2 := Local(q.(eax := cr0), s + [q.eax]);
    LegalThen(base, PushReg(Eax), Then(Read(Eax, Cr0, cr0), test), Local(q, s), sys, l1, sys);
    LegalRead(base, Cr0, cr0, test, l1, sys, l2);
    LegalBitTest(base, Emulated(cr0), rest, l2, sys, m);
  }

  function Cleared(sys: System): System {
    sys.(cr0 := WithoutTaskSwitched(sys.cr0))
  }

  /** The second part is possible exactly when the two words are what ds shows. */
  lemma LegalTaskTest(base: word, w: Words, rest: Code, l: Local, sys: System, m: Local)
    requires m == Local(l.r.(eax := w.current,
                             eflags := WithFlag(Zero, l.r.eflags, w.current == w.lastTaskUsedMath)), l.stack)
    ensures Legal(base, Then(Clts, Then(Read(Eax, Current, w.current),
                    Then(Compare(Eax, LastTaskUsedMath, w.lastTaskUsedMath),
                      Then(Jump(Zero, w.current == w.lastTaskUsedMath), rest)))), l, sys)
            <==> w == Shown(sys, l.r.ds) && Legal(base, rest, m, Cleared(sys))
  {
    var same, sys' := w.current == w.lastTaskUsedMath, Cleared(sys);
    var test := Then(Compare(Eax, LastTaskUsedMath, w.lastTaskUsedMath), Then(Jump(Zero, same), rest));
    var l1 := Local(l.r.(eax := w.current), l.stack);
    LegalThen(base, Clts, Then(Read(Eax, Current, w.current), test), l, sys, l, sys');
    LegalRead(base, Current, w.current, test, l, sys', l1);
    LegalCompare(base, w.lastTaskUsedMath, same, rest, l1, sys', m);
  }

  /** What follows the second jump. */
  function MathRest(w: Words, handler: Code): Code {
    if w.current == w.lastTaskUsedMath then Then(PopReg(Eax), Return) else RestoreMath(handler)
  }

  /** Without exceptions the values read are those at the entry, seen through the interrupted ds. */
  lemma UninterruptedReads(base: word, s: seq<word>, q: Registers, sys: System, seen: Reads, handler: Code)
    requires Legal(base, DeviceNotAvailableText(seen, handler), Local(q, s), sys)
    ensures seen.cr0 == sys.cr0 && (!Emulated(sys.cr0) ==> seen.words == Shown(sys, q.ds))
  {
    var w, f := seen.words, WithFlag(Carry, q.eflags, Emulated(seen.cr0));
    var m := Local(q.(eax := seen.cr0, eflags := f), s + [q.eax]);
    if Emulated(seen.cr0) {
      LegalMathTest(base, seen.cr0, MathEmulate(handler), s, q, sys, m);
    } else {
      LegalMathTest(base, seen.cr0, MathTask(w, handler), s, q, sys, m);
      var f' := WithFlag(Zero, f, w.current == w.lastTaskUsedMath);
      LegalTaskTest(base, w, MathRest(w, handler), m, sys, Local(m.r.(eax := w.current, eflags := f'), m.stack));
    }
  }

  /** And so is the call. */
  lemma UninterruptedCall(base: word, code: word, s: seq<word>, q: Registers, sys: System, seen: Reads, handler: Code)
    requires Legal(base, DeviceNotAvailableText(seen, handler), Local(q, s), sys)
    ensures Invoked(base, EntryAt(7), code, s, q, seen)
            == Invoked(base, EntryAt(7), code, s, q, ReadsIn(sys, q.ds))
  {
    UninterruptedReads(base, s, q, sys, seen, handler);
    SameCall(base, code, s, q, seen, ReadsIn(sys, q.ds));
  }

  lemma SameCall(base: word, code: word, s: seq<word>, q: Registers, a: Reads, b: Reads)
    requires a.cr0 == b.cr0 && (!Emulated(a.cr0) ==> a.words == b.words)
    ensures Invoked(base, EntryAt(7), code, s, q, a) == Invoked(base, EntryAt(7), code, s, q, b)
  {
    assert EntryAt(7) == DeviceNotAvailable;
  }

  /** The function to call: math_state_restore unless the coprocessor holds the state of the current task. */
  function Wanted(sys: System): Option<Function> {
    if Emulated(sys.cr0) then Some(DoDeviceNotAvailable)
    else if sys.kernel.current == sys.kernel.lastTaskUsedMath then None
    else Some(MathStateRestore)
  }

  /** The entry point makes just that call. */
  predicate CallsWanted(base: word, code: word, s: seq<word>, q: Registers, sys: System) {
    match Invoked(base, EntryAt(7), code, s, q, ReadsIn(sys, q.ds))
    case None => Wanted(sys) == None
    case Some(c) => Wanted(sys).Some? && c.target == AddressOf(Wanted(sys).value)
  }

  /**
   * The two variables are loaded before ds is: the right call is made whatever the
   * interrupted data segment holds if and only if that is the kernel's, or the
   * coprocessor is emulated.
   */
  lemma RightTaskIff(base: word, code: word, s: seq<word>, q: Registers, sys: System)
    ensures (forall segments :: CallsWanted(base, code, s, q, sys.(segments := segments)))
            <==> Emulated(sys.cr0) || q.ds == KERNEL_DATA
  {
    if !Emulated(sys.cr0) && q.ds != KERNEL_DATA {
      var same := sys.kernel.current == sys.kernel.lastTaskUsedMath;
      assert !CallsWanted(base, code, s, q, sys.(segments := map[q.ds := Words(if same then 1 else 0, 0)]));
    }
  }

  // The system state behind _device_not_available

  /** The instructions that change the system state, or run code that may. */
  predicate Quiet(step: Step) {
    !step.Clts? && !step.Call? && !step.SetSystem? && !step.Fault?
  }

  /** body does to the system state what the code behind some quiet steps does. */
  lemma SystemSkips(body: Code, rest: Code, sys: System)
    requires body.Then? && Quiet(body.step) && SystemAfter(body.rest, sys) == SystemAfter(rest, sys)
    ensures SystemAfter(body, sys) == SystemAfter(rest, sys)
  {
  }

  lemma {:induction false} SystemAfterPushes(regs: seq<Reg>, rest: Code, sys: System)
    ensures SystemAfter(PushRegs(regs, rest), sys) == SystemAfter(rest, sys)
    decreases |regs|
  {
    if regs == [] {
    } else {
      SystemAfterPushes(regs[1..], rest, sys);
    }
  }

  lemma {:induction false} SystemAfterPops(regs: seq<Reg>, sys: System)
    ensures SystemAfter(PopRegs(regs, Return), sys) == sys
    decreases |regs|
  {
    if regs == [] {
    } else {
      SystemAfterPops(regs[1..], sys);
    }
  }

  lemma RestoreMathSystem(handler: Code, sys: System)
    ensures SystemAfter(RestoreMath(handler), sys) == SystemAfter(handler, sys)
  {
    MathCallSystem(handler, PopRegs([Ds, Edx, Ecx, Eax], Return), [Ecx, Edx, Ds], sys);
    SystemAfterPops([Ds, Edx, Ecx, Eax], SystemAfter(handler, sys));
  }

  lemma MathCallSystem(handler: Code, pops: Code, regs: seq<Reg>, sys: System)
    ensures SystemAfter(PushRegs(regs, Then(MovWord(Eax, KERNEL_DATA), Then(Mov(Ds, Eax),
              Then(Call(Direct(MathStateRestore), 0, handler), pops)))), sys)
            == SystemAfter(pops, SystemAfter(handler, sys))
  {
    var call := Then(Call(Direct(MathStateRestore), 0, handler), pops);
    SystemSkips(Then(Mov(Ds, Eax), call), call, sys);
    SystemSkips(Then(MovWord(Eax, KERNEL_DATA), Then(Mov(Ds, Eax), call)), call, sys);
    SystemAfterPushes(regs, Then(MovWord(Eax, KERNEL_DATA), Then(Mov(Ds, Eax), call)), sys);
  }

  /** TS is cleared exactly on the two paths without emulation, before math_state_restore runs. */
  lemma MathTaskSystem(w: Words, handler: Code, sys: System)
    ensures SystemAfter(MathTask(w, handler), sys)
            == if w.current == w.lastTaskUsedMath then Cleared(sys) else SystemAfter(handler, Cleared(sys))
  {
    RestoreMathSystem(handler, Cleared(sys));
    TaskTestSystem(w, MathRest(w, handler), Cleared(sys));
  }

  lemma TaskTestSystem(w: Words, rest: Code, sys: System)
    ensures SystemAfter(Then(Read(Eax, Current, w.current), Then(Compare(Eax, LastTaskUsedMath, w.lastTaskUsedMath),
              Then(Jump(Zero, w.current == w.lastTaskUsedMath), rest))), sys) == SystemAfter(rest, sys)
  {
    var jump := Then(Jump(Zero, w.current == w.lastTaskUsedMath), rest);
    SystemSkips(jump, rest, sys);
    SystemSkips(Then(Compare(Eax, LastTaskUsedMath, w.lastTaskUsedMath), jump), rest, sys);
  }

  lemma DeviceNotAvailableSystem(seen: Reads, handler: Code, sys: System)
    requires !Emulated(seen.cr0)
    ensures SystemAfter(DeviceNotAvailableText(seen, handler), sys)
            == if seen.words.current == seen.words.lastTaskUsedMath then Cleared(sys)
               else SystemAfter(handler, Cleared(sys))
  {
    MathTaskSystem(seen.words, handler, sys);
    MathTestSystem(seen.cr0, MathTask(seen.words, handler), sys);
  }

  /**
   * For cr0 with these bits 4 and up, TS in bit 3, no EM in bit 2, and bits 0 and 1: TS is
   * cleared and nothing else, before math_state_restore runs.
   */
  lemma DeviceNotAvailableClearsTs(seen: Reads, handler: Code, sys: System, high: nat, ts: nat, low: nat)
    requires ts < 2 && low < 4 && sys.cr0 == seen.cr0 == 16 * high + 8 * ts + low
    ensures var cleared := sys.(cr0 := 16 * high + low);
            SystemAfter(Text(EntryAt(7), 0, seen, handler), sys)
            == if seen.words.current == seen.words.lastTaskUsedMath then cleared else SystemAfter(handler, cleared)
  {
    OnlyTsIsCleared(sys, high, ts, low);
    assert EntryAt(7) == DeviceNotAvailable;
    DeviceNotAvailableSystem(seen, handler, sys);
  }

  lemma OnlyTsIsCleared(sys: System, high: nat, ts: nat, low: nat)
    requires ts < 2 && low < 4 && sys.cr0 == 16 * high + 8 * ts + low
    ensures !Emulated(sys.cr0) && Cleared(sys) == sys.(cr0 := 16 * high + low)
  {
    EmulationIsBitTwo(2 * high + ts, 0, low);
    TaskSwitchedIsBitThree(high, ts, low);
  }

  lemma MathTestSystem(cr0: word, rest: Code, sys: System)
    ensures SystemAfter(Then(PushReg(Eax), Then(Read(Eax, Cr0, cr0), Then(BitTest(Eax),
              Then(Jump(Carry, Emulated(cr0)), rest)))), sys) == SystemAfter(rest, sys)
  {
    var jump := Then(Jump(Carry, Emulated(cr0)), rest);
    SystemSkips(jump, rest, sys);
    SystemSkips(Then(BitTest(Eax), jump), rest, sys);
    SystemSkips(Then(Read(Eax, Cr0, cr0), Then(BitTest(Eax), jump)), rest, sys);
  }

  /** The interrupted segment shows equal words though the coprocessor belongs to another task. */
  predicate Misleading(sys: System, ds: word) {
    && !Emulated(sys.cr0) && sys.kernel.current != sys.kernel.lastTaskUsedMath
    && Shown(sys, ds).current == Shown(sys, ds).lastTaskUsedMath
  }

  /** Then the entry point can only clear TS and return, though math_state_restore is wanted. */
  lemma SkippedWhenMisled(base: word, code: word, s: seq<word>, q: Registers, sys: System, seen: Reads, handler: Code)
    requires Misleading(sys, q.ds) && Legal(base, DeviceNotAvailableText(seen, handler), Local(q, s), sys)
    ensures Wanted(sys) == Some(MathStateRestore)
    ensures Invoked(base, EntryAt(7), code, s, q, seen) == None
    ensures SystemAfter(DeviceNotAvailableText(seen, handler), sys) == Cleared(sys)
  {
    UninterruptedReads(base, s, q, sys, seen, handler);
    DeviceNotAvailableSystem(seen, handler, sys);
  }

  /**
   * TS set, the current task 5, the coprocessor with the state of task 7, and a task with
   * data segment 0x17 whose own memory holds zeros at the two addresses.
   */
  const SWITCHED := System(8, 0, Words(5, 7), map[0x17 := Words(0, 0)])

  lemma UserSegmentMisleads()
    ensures Misleading(SWITCHED, 0x17) && Cleared(SWITCHED).cr0 == 0
  {
    assert SWITCHED.cr0 == 8 && SWITCHED.kernel == Words(5, 7);
    assert Shown(SWITCHED, 0x17) == Words(0, 0);
  }

  lemma FaultFreeThen(step: Step, rest: Code)
    requires !step.Fault? && FaultFree(rest) == rest
    ensures FaultFree(Then(step, rest)) == Then(step, rest)
  {
  }

  lemma SkippingIsFaultFree(seen: Reads, handler: Code)
    requires !Emulated(seen.cr0) && seen.words.current == seen.words.lastTaskUsedMath
    ensures var text := DeviceNotAvailableText(seen, handler); FaultFree(text) == text
  {
    var w := seen.words;
    var jump := Then(Jump(Zero, true), Then(PopReg(Eax), Return));
    var compare := Then(Compare(Eax, LastTaskUsedMath, w.lastTaskUsedMath), jump);
    FaultFreeThen(Compare(Eax, LastTaskUsedMath, w.lastTaskUsedMath), jump);
    FaultFreeThen(Read(Eax, Current, w.current), compare);
    FaultFreeThen(Clts, Then(Read(Eax, Current, w.current), compare));
    var test := Then(Jump(Carry, false), MathTask(w, handler));
    FaultFreeThen(Jump(Carry, false), MathTask(w, handler));
    FaultFreeThen(BitTest(Eax), test);
    FaultFreeThen(Read(Eax, Cr0, seen.cr0), Then(BitTest(Eax), test));
  }

  /** There is such an exception, without any other in it, and it does not call math_state_restore. */
  lemma MisledExecution(base: word, s: seq<word>, q: Registers, seen: Reads, handler: Code)
    requires q.ds == 0x17 && seen == ReadsIn(SWITCHED, 0x17)
    ensures StubLegal(base, 7, 0, s, q, seen, handler, DeviceNotAvailableText(seen, handler), SWITCHED)
    ensures Wanted(SWITCHED) == Some(MathStateRestore)
    ensures Invoked(base, EntryAt(7), 0, s, q, seen) == None
    ensures SystemAfter(DeviceNotAvailableText(seen, handler), SWITCHED) == Cleared(SWITCHED)
  {
    UserSegmentMisleads();
    SwitchedIsLegal(base, s, q, seen, handler);
    SkippingIsFaultFree(seen, handler);
    SkippedWhenMisled(base, 0, s, q, SWITCHED, seen, handler);
  }

  lemma SwitchedIsLegal(base: word, s: seq<word>, q: Registers, seen: Reads, handler: Code)
    requires q.ds == 0x17 && seen == ReadsIn(SWITCHED, 0x17)
    ensures Legal(base, DeviceNotAvailableText(seen, handler), Local(q, s), SWITCHED)
  {
    var f := WithFlag(Carry, q.eflags, false);
    var m := Local(q.(eax := 8, eflags := f), s + [q.eax]);
    var m' := Local(m.r.(eax := 0, eflags := WithFlag(Zero, f, true)), m.stack);
    LegalMathTest(base, 8, MathTask(Words(0, 0), handler), s, q, SWITCHED, m);
    LegalTaskTest(base, Words(0, 0), MathRest(Words(0, 0), handler), m, SWITCHED, m');
  }

  // _page_fault and the address of the fault

  lemma {:induction false} LegalPushes(base: word, regs: seq<Reg>, rest: Code, l: Local, sys: System, m: Local)
    requires m == l.(stack := l.stack + Values(l.r, regs)) && Legal(base, PushRegs(regs, rest), l, sys)
    ensures Legal(base, rest, m, sys)
    decreases |regs|
  {
    if regs == [] {
      assert m.stack == l.stack;
    } else {
      var l' := l.(stack := l.stack + [Get(l.r, regs[0])]);
      assert m.stack == l'.stack + Values(l.r, regs[1..]);
      LegalThen(base, PushReg(regs[0]), PushRegs(regs[1..], rest), l, sys, l', sys);
      LegalPushes(base, regs[1..], rest, l', sys, m);
    }
  }

  lemma LegalSegments(base: word, from: Reg, rest: Code, l: Local, sys: System, m: Local)
    requires (from.Eax? || from.Edx?) && Get(l.r, from) == KERNEL_DATA && m == l.(r := InKernelData(l.r))
    requires Legal(base, LoadSegments(from, rest), l, sys)
    ensures Legal(base, rest, m, sys)
  {
    var l1 := l.(r := l.r.(ds := KERNEL_DATA));
    var l2 := l.(r := l.r.(ds := KERNEL_DATA, es := KERNEL_DATA));
    LegalThen(base, Mov(Ds, from), Then(Mov(Es, from), Then(Mov(Fs, from), rest)), l, sys, l1, sys);
    LegalThen(base, Mov(Es, from), Then(Mov(Fs, from), rest), l1, sys, l2, sys);
    LegalThen(base, Mov(Fs, from), rest, l2, sys, m, sys);
  }

  lemma LegalFaultAddress(base: word, cr2: word, rest: Code, l: Local, sys: System)
    requires Legal(base, Then(MovWord(Edx, KERNEL_DATA), LoadSegments(Edx, Then(Read(Edx, Cr2, cr2), rest))), l, sys)
    ensures cr2 == sys.cr2
  {
    var read := Then(Read(Edx, Cr2, cr2), rest);
    var l1 := l.(r := l.r.(edx := KERNEL_DATA));
    var l2 := l.(r := InKernelData(l1.r));
    LegalThen(base, MovWord(Edx, KERNEL_DATA), LoadSegments(Edx, read), l, sys, l1, sys);
    LegalSegments(base, Edx, read, l1, sys, l2);
    LegalThen(base, Read(Edx, Cr2, cr2), rest, l2, sys, l2.(r := l2.r.(edx := cr2)), sys);
  }

  /** Without exceptions the address that a page fault's handler is given is that of the fault. */
  lemma UninterruptedFaultAddress(base: word, code: word, cr2: word, handler: Code, s: seq<word>, q: Registers,
                                  sys: System)
    requires Legal(base, PageFaultText(code, cr2, handler), Local(q, s + [code]), sys)
    ensures cr2 == sys.cr2
  {
    var l1 := Local(q.(eax := code), s + [q.eax]);
    assert (s + [code])[|s| := q.eax] == s + [q.eax];
    PageFaultAddressRead(base, code, cr2, handler, Local(q, s + [code]), l1, [Ecx, Edx, Ds, Es, Fs], sys);
  }

  lemma PageFaultAddressRead(base: word, code: word, cr2: word, handler: Code, l: Local, l1: Local, regs: seq<Reg>,
                             sys: System)
    requires l1 == Effect(base, Exchange(Eax, 0), l)
    requires Legal(base, Then(Exchange(Eax, 0), PushRegs(regs, PageFaultArguments(code, cr2, handler))), l, sys)
    ensures cr2 == sys.cr2
  {
    var rest := PageFaultArguments(code, cr2, handler);
    var l2 := l1.(stack := l1.stack + Values(l1.r, regs));
    LegalThen(base, Exchange(Eax, 0), PushRegs(regs, rest), l, sys, l1, sys);
    LegalPushes(base, regs, rest, l1, sys, l2);
    LegalFaultAddress(base, cr2, Then(PushReg(Edx), Then(PushReg(Eax), Then(TestOdd(Eax),
      Then(Jump(Zero, code % 2 == 0), PageFaultCallAndRestore(code, handler))))), l2, sys);
  }
}
