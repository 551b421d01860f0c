/**
 * kernel/asm.s and mm/page.s, instruction by instruction, around a handler's execution;
 * what the handler finds, and that everything is put back behind it. A jump that is
 * always taken changes nothing and is left out.
 */
module TrapText {
  import opened Bytes
  import opened TrapModel

  const PUSHED := [Ecx, Edx, Edi, Esi, Ebp, Ds, Es, Fs]
  const POPPED := [Fs, Es, Ds, Ebp, Esi, Edi, Edx, Ecx, Ebx, Eax]

  function PushRegs(regs: seq<Reg>, rest: Code): Code
    decreases |regs|, rest
  {
    if regs == [] then rest else Then(PushReg(regs[0]), PushRegs(regs[1..], rest))
  }

  function PopRegs(regs: seq<Reg>, rest: Code): Code
    decreases |regs|, rest
  {
    if regs == [] then rest else Then(PopReg(regs[0]), PopRegs(regs[1..], rest))
  }

  /** mov to the three data segment registers. */
  function LoadSegments(from: Reg, rest: Code): Code {
    Then(Mov(Ds, from), Then(Mov(Es, from), Then(Mov(Fs, from), rest)))
  }

  function NoErrorCode(handler: Code): Code {
    Then(Exchange(Eax, 0), Then(PushReg(Ebx), PushRegs(PUSHED, NoErrorCodeArguments(handler))))
  }

  function NoErrorCodeArguments(handler: Code): Code {
    Then(Push(0), Then(Lea(Edx, 11), Then(PushReg(Edx), Then(MovWord(Edx, KERNEL_DATA),
      LoadSegments(Edx, CallAndRestore(Eax, handler))))))
  }

  function ErrorCode(handler: Code): Code {
    Then(Exchange(Eax, 1), Then(Exchange(Ebx, 0), PushRegs(PUSHED, ErrorCodeArguments(handler))))
  }

  function ErrorCodeArguments(handler: Code): Code {
    Then(PushReg(Eax), Then(Lea(Eax, 11), Then(PushReg(Eax), Then(MovWord(Eax, KERNEL_DATA),
      LoadSegments(Eax, CallAndRestore(Ebx, handler))))))
  }

  /** From the call on both stubs are the same. */
  function CallAndRestore(target: Reg, handler: Code): Code {
    Then(Call(Through(target), 2, handler), Then(Discard(2), PopRegs(POPPED, Return)))
  }

  function DeviceNotAvailableText(seen: Reads, handler: Code): Code {
    Then(PushReg(Eax), Then(Read(Eax, Cr0, seen.cr0), Then(BitTest(Eax), Then(Jump(Carry, Emulated(seen.cr0)),
      if Emulated(seen.cr0) then MathEmulate(handler) else MathTask(seen.words, handler)))))
  }

  function MathEmulate(handler: Code): Code {
    Then(PopReg(Eax), Then(Push(AddressOf(DoDeviceNotAvailable)), NoErrorCode(handler)))
  }

  function MathTask(words: Words, handler: Code): Code {
    var last := words.current == words.lastTaskUsedMath;
    Then(Clts, Then(Read(Eax, Current, words.current), Then(Compare(Eax, LastTaskUsedMath, words.lastTaskUsedMath),
      Then(Jump(Zero, last), if last then Then(PopReg(Eax), Return) else RestoreMath(handler)))))
  }

  function RestoreMath(handler: Code): Code {
    PushRegs([Ecx, Edx, Ds], Then(MovWord(Eax, KERNEL_DATA), Then(Mov(Ds, Eax),
      Then(Call(Direct(MathStateRestore), 0, handler), PopRegs([Ds, Edx, Ecx, Eax], Return)))))
  }

  function PageFaultText(code: word, cr2: word, handler: Code): Code {
    Then(Exchange(Eax, 0), PushRegs([Ecx, Edx, Ds, Es, Fs], PageFaultArguments(code, cr2, handler)))
  }

  function PageFaultArguments(code: word, cr2: word, handler: Code): Code {
    Then(MovWord(Edx, KERNEL_DATA), LoadSegments(Edx, Then(Read(Edx, Cr2, cr2),
      Then(PushReg(Edx), Then(PushReg(Eax), Then(TestOdd(Eax), Then(Jump(Zero, code % 2 == 0),
        PageFaultCallAndRestore(code, handler))))))))
  }

  function PageFaultCallAndRestore(code: word, handler: Code): Code {
    Then(Call(Direct(if code % 2 == 0 then DoNoPage else DoWpPage), 2, handler),
      Then(Discard(2), PopRegs([Fs, Es, Ds, Edx, Ecx, Eax], Return)))
  }

  /**
   * The entry points: most push a function for one of the two common stubs to call, one of
   * which expects an error code below it.
   */
  datatype Entry = Common(f: Function, withCode: bool) | DeviceNotAvailable | PageFault

  datatype Label =
    | DIVIDE_ERROR | DEBUG | NMI | INT3 | OVERFLOW | BOUNDS | INVALID_OP
    | DEVICE_NOT_AVAILABLE | DOUBLE_FAULT | COPROCESSOR_SEGMENT_OVERRUN | INVALID_TSS | SEGMENT_NOT_PRESENT
    | STACK_SEGMENT | GENERAL_PROTECTION | PAGE_FAULT | RESERVED | COPROCESSOR_ERROR

  /** What stands at each label; debug shares the function of int3. */
  function EntryPoint(l: Label): Entry {
    match l
    case DIVIDE_ERROR => Common(DoDivideError, false)
    case DEBUG => Common(DoInt3, false)
    case NMI => Common(DoNmi, false)
    case INT3 => Common(DoInt3, false)
    case OVERFLOW => Common(DoOverflow, false)
    case BOUNDS => Common(DoBounds, false)
    case INVALID_OP => Common(DoInvalidOp, false)
    case DEVICE_NOT_AVAILABLE => DeviceNotAvailable
    case DOUBLE_FAULT => Common(DoDoubleFault, true)
    case COPROCESSOR_SEGMENT_OVERRUN => Common(DoCoprocessorSegmentOverrun, false)
    case INVALID_TSS => Common(DoInvalidTss, true)
    case SEGMENT_NOT_PRESENT => Common(DoSegmentNotPresent, true)
    case STACK_SEGMENT => Common(DoStackSegment, true)
    case GENERAL_PROTECTION => Common(DoGeneralProtection, true)
    case PAGE_FAULT => PageFault
    case RESERVED => Common(DoReserved, false)
    case COPROCESSOR_ERROR => Common(DoCoprocessorError, false)
  }

  /** trap_init of kernel/traps.c: the label that each vector leads to. */
  function Gate(vector: nat): Label {
    match vector
    case 0 => DIVIDE_ERROR case 1 => DEBUG case 2 => NMI case 3 => INT3 case 4 => OVERFLOW
    case 5 => BOUNDS case 6 => INVALID_OP case 7 => DEVICE_NOT_AVAILABLE case 8 => DOUBLE_FAULT
    case 9 => COPROCESSOR_SEGMENT_OVERRUN case 10 => INVALID_TSS case 11 => SEGMENT_NOT_PRESENT
    case 12 => STACK_SEGMENT case 13 => GENERAL_PROTECTION case 14 => PAGE_FAULT
    case 16 => COPROCESSOR_ERROR
    case _ => RESERVED
  }

  function EntryAt(vector: nat): Entry {
    EntryPoint(Gate(vector))
  }

  /** The entry point removes an error code from the stack. */
  predicate TakesCode(e: Entry) {
    match e
    case Common(_, withCode) => withCode
    case DeviceNotAvailable => false
    case PageFault => true
  }

  /** Each gate leads to an entry point that expects an error code exactly when the processor pushes one. */
  lemma GatesMatch(vector: nat)
    ensures TakesCode(EntryAt(vector)) <==> vector == 8 || 10 <= vector <= 14
  {
  }

  /** The entry points that push a function and jump to one of the common stubs. */
  function CommonText(target: word, withCode: bool, handler: Code): Code {
    Then(Push(target), if withCode then ErrorCode(handler) else NoErrorCode(handler))
  }

  /** What an entry point executes up to iret, for what it reads on its way. */
  function Text(e: Entry, code: word, seen: Reads, handler: Code): Code {
    match e
    case PageFault => PageFaultText(code, seen.cr2, handler)
    case DeviceNotAvailable => DeviceNotAvailableText(seen, handler)
    case Common(f, withCode) => CommonText(AddressOf(f), withCode, handler)
  }

  // What the handlers find

  function InKernelData(q: Registers): Registers {
    q.(ds := KERNEL_DATA, es := KERNEL_DATA, fs := KERNEL_DATA)
  }

  /** The registers in the order in which both stubs of asm.s save them. */
  function Saved(q: Registers): seq<word> {
    [q.eax, q.ebx, q.ecx, q.edx, q.edi, q.esi, q.ebp, q.ds, q.es, q.fs]
  }

  /** What both stubs put above the return frame s before they call the handler. */
  function Frame(base: word, q: Registers, code: word, n: nat): seq<word> {
    Saved(q) + [code, At(base, n - 1)]
  }

  /** The call made behind label no_error_code. */
  function PlainCall(base: word, target: word, s: seq<word>, q: Registers): Called {
    Called(target, 2, Local(InKernelData(q.(eax := target, edx := KERNEL_DATA)), s + Frame(base, q, 0, |s|)))
  }

  /** The call made behind label error_code. */
  function CodeCall(base: word, target: word, code: word, s: seq<word>, q: Registers): Called {
    Called(target, 2, Local(InKernelData(q.(eax := KERNEL_DATA, ebx := target)), s + Frame(base, q, code, |s|)))
  }

  /** q with the flags of bt, and of cmpl behind it. */
  function Tested(q: Registers, seen: Reads): Registers {
    var f := WithFlag(Carry, q.eflags, Emulated(seen.cr0));
    q.(eflags := if Emulated(seen.cr0) then f
                 else WithFlag(Zero, f, seen.words.current == seen.words.lastTaskUsedMath))
  }

  /** The call of math_state_restore, for the flags of q. */
  function MathCall(s: seq<word>, q: Registers): Called {
    Called(AddressOf(MathStateRestore), 0,
           Local(q.(eax := KERNEL_DATA, ds := KERNEL_DATA), s + [q.eax, q.ecx, q.edx, q.ds]))
  }

  /** The call made by _page_fault: bit 0 of the error code tells a missing from a write-protected page. */
  function PageFaultCall(code: word, cr2: word, s: seq<word>, q: Registers): Called {
    var flags := WithFlag(Zero, q.eflags, code % 2 == 0);
    Called(AddressOf(if code % 2 == 0 then DoNoPage else DoWpPage), 2,
           Local(InKernelData(q.(eax := code, edx := cr2, eflags := flags)),
                 s + [q.eax, q.ecx, q.edx, q.ds, q.es, q.fs, cr2, code]))
  }

  function CommonCall(base: word, target: word, withCode: bool, code: word, s: seq<word>, q: Registers): Called {
    if withCode then CodeCall(base, target, code, s, q) else PlainCall(base, target, s, q)
  }

  /** The call that an entry point makes, on the return frame s; None if it has nothing to call. */
  function Invoked(base: word, e: Entry, code: word, s: seq<word>, q: Registers, seen: Reads): Option<Called> {
    match e
    case PageFault => Some(PageFaultCall(code, seen.cr2, s, q))
    case DeviceNotAvailable =>
      if Emulated(seen.cr0) then Some(PlainCall(base, AddressOf(DoDeviceNotAvailable), s, Tested(q, seen)))
      else if seen.words.current == seen.words.lastTaskUsedMath then None
      else Some(MathCall(s, Tested(q, seen)))
    case Common(f, withCode) => Some(CommonCall(base, AddressOf(f), withCode, code, s, q))
  }

  /** The C convention, asked of the function that an entry point calls. */
  predicate HandlerKeeps(base: word, call: Option<Called>, handler: Code) {
    match call
    case None => true
    case Some(c) => KeepsConvention(base, handler, c.l, c.args) && Steady(base, handler, Inside(c.l))
  }

  function AsList(call: Option<Called>): seq<Called> {
    match call
    case None => []
    case Some(c) => [c]
  }

  // Executing the text

  /**
   * body at l, its exceptions left out, is steady, makes these calls and ends with the
   * stack s and the registers q, but for the flags.
   */
  predicate Restores(base: word, body: Code, l: Local, calls: seq<Called>, s: seq<word>, q: Registers)
    decreases body
  {
    match body
    case Return => calls == [] && l.stack == s && l.r == q.(eflags := l.r.eflags)
    case Then(step, rest) =>
      && StepSteady(base, step, l)
      && if step.Call? then
        && calls != [] && calls[0] == Called(TargetOf(step.target, l.r), step.args, l)
        && Restores(base, rest, Effect(base, step, l), calls[1..], s, q)
      else
        Restores(base, rest, Effect(base, step, l), calls, s, q)
  }

  lemma {:induction false} RestoresMeans(base: word, body: Code, l: Local, calls: seq<Called>, s: seq<word>,
                                         q: Registers)
    requires Restores(base, body, l, calls, s, q)
    ensures Steady(base, body, l) && OwnCalls(base, body, l) == calls
    ensures var end := Alone(base, body, l); end.stack == s && end.r == q.(eflags := end.r.eflags)
    decreases body
  {
    match body
    case Return =>
    case Then(step, rest) =>
      RestoresMeans(base, rest, Effect(base, step, l), if step.Call? then calls[1..] else calls, s, q);
  }

  /** The flags of q do not matter. */
  lemma {:induction false} FlagsAside(base: word, body: Code, l: Local, calls: seq<Called>, s: seq<word>,
                                      q: Registers, q': Registers)
    requires q' == q.(eflags := q'.eflags) && Restores(base, body, l, calls, s, q')
    ensures Restores(base, body, l, calls, s, q)
    decreases body
  {
    match body
    case Return =>
    case Then(step, rest) =>
      FlagsAside(base, rest, Effect(base, step, l), if step.Call? then calls[1..] else calls, s, q, q');
  }

  /** A step that calls nothing. */
  lemma Prepend(base: word, body: Code, l: Local, m: Local, calls: seq<Called>, s: seq<word>, q: Registers)
    requires body.Then? && !body.step.Call? && StepSteady(base, body.step, l) && m == Effect(base, body.step, l)
    requires Restores(base, body.rest, m, calls, s, q)
    ensures Restores(base, body, l, calls, s, q)
  {
  }

  /** Behind a call that keeps the convention. */
  lemma PrependCall(base: word, body: Code, l: Local, m: Local, c: Called, s: seq<word>, q: Registers)
    requires body.Then? && body.step.Call? && StepSteady(base, body.step, l) && m == Effect(base, body.step, l)
    requires Restores(base, body.rest, m, [], s, q) && c == Called(TargetOf(body.step.target, l.r), body.step.args, l)
    ensures Restores(base, body, l, [c], s, q)
  {
    assert [c][1..] == [];
  }

  /** What a called function leaves behind it. */
  lemma AfterCall(base: word, step: Step, l: Local, m: Local, n: nat)
    requires step.Call? && KeepsConvention(base, step.handler, l, step.args)
    requires m == Effect(base, step, l) && n == |l.stack| - step.args
    ensures |m.stack| == |l.stack| && m.stack[..n] == l.stack[..n] && m.r == Clobbered(l.r, m.r)
  {
    var inside := Inside(l);
    var end := Alone(base, step.handler, inside);
    AloneKeepsFrame(base, step.handler, inside, n, |l.stack|);
    assert m.stack[..n] == end.stack[..n] == inside.stack[..n] == l.stack[..n];
  }

  function Values(q: Registers, regs: seq<Reg>): (s: seq<word>)
    ensures |s| == |regs| && forall i :: 0 <= i < |s| ==> s[i] == Get(q, regs[i])
  {
    seq(|regs|, i requires 0 <= i < |regs| => Get(q, regs[i]))
  }

  /** A series of pushes. */
  lemma {:induction false} PrependPushes(base: word, regs: seq<Reg>, rest: Code, l: Local, m: Local,
                                         calls: seq<Called>, s: seq<word>, q: Registers)
    requires m == l.(stack := l.stack + Values(l.r, regs)) && Restores(base, rest, m, calls, s, q)
    ensures Restores(base, PushRegs(regs, rest), l, calls, s, q)
    decreases |regs|
  {
    if regs == [] {
      assert m.stack == l.stack;
    } else {
      var l' := Effect(base, PushReg(regs[0]), l);
      assert m.stack == l'.stack + Values(l.r, regs[1..]);
      PrependPushes(base, regs[1..], rest, l', m, calls, s, q);
      Prepend(base, PushRegs(regs, rest), l, l', calls, s, q);
    }
  }

  /** All registers but eflags. */
  lemma SameRegisters(r: Registers, q: Registers)
    requires forall x :: Get(r, x) == Get(q, x)
    ensures r == q.(eflags := r.eflags)
  {
    assert r.eax == Get(r, Eax) && r.ebx == Get(r, Ebx) && r.ecx == Get(r, Ecx) && r.edx == Get(r, Edx);
    assert r.esi == Get(r, Esi) && r.edi == Get(r, Edi) && r.ebp == Get(r, Ebp);
    assert r.ds == Get(r, Ds) && r.es == Get(r, Es) && r.fs == Get(r, Fs);
  }

  /** The pops at the end of an entry point, when the words to be popped into regs are those of q. */
  lemma {:induction false} PopsRestore(base: word, regs: seq<Reg>, l: Local, s: seq<word>, q: Registers)
    requires |l.stack| == |s| + |regs| && l.stack[..|s|] == s
    requires forall i :: 0 <= i < |regs| ==> l.stack[|l.stack| - 1 - i] == Get(q, regs[i])
    requires forall x :: x !in regs ==> Get(l.r, x) == Get(q, x)
    ensures Restores(base, PopRegs(regs, Return), l, [], s, q)
    decreases |regs|
  {
    if regs == [] {
      SameRegisters(l.r, q);
    } else {
      var n := |l.stack| - 1;
      var m := Effect(base, PopReg(regs[0]), l);
      assert l.stack[n - 0] == Get(q, regs[0]);
      forall i | 0 <= i < |regs[1..]| ensures m.stack[|m.stack| - 1 - i] == Get(q, regs[1..][i]) {
        assert l.stack[n - (i + 1)] == Get(q, regs[i + 1]);
      }
      forall x | x !in regs[1..] ensures Get(m.r, x) == Get(q, x) {
        assert x == regs[0] || x !in regs;
      }
      PopsRestore(base, regs[1..], m, s, q);
      Prepend(base, PopRegs(regs, Return), l, m, [], s, q);
    }
  }

  /** mov to the three data segment registers. */
  lemma PrependSegments(base: word, from: Reg, rest: Code, l: Local, m: Local, calls: seq<Called>, s: seq<word>,
                        q: Registers)
    requires (from.Eax? || from.Edx?) && Get(l.r, from) == KERNEL_DATA && m == l.(r := InKernelData(l.r))
    requires Restores(base, rest, m, calls, s, q)
    ensures Restores(base, LoadSegments(from, rest), l, calls, s, q)
  {
    var body := LoadSegments(from, rest);
    var l1 := Effect(base, Mov(Ds, from), l);
    var l2 := Effect(base, Mov(Es, from), l1);
    Prepend(base, body.rest.rest, l2, m, calls, s, q);
    Prepend(base, body.rest, l1, l2, calls, s, q);
    Prepend(base, body, l, l1, calls, s, q);
  }

  /** What the pops of both stubs find in their words. */
  lemma SavedWhere(stack: seq<word>, s: seq<word>, q: Registers)
    requires stack == s + Saved(q)
    ensures |stack| == |s| + |POPPED| && stack[..|s|] == s
    ensures forall i :: 0 <= i < |POPPED| ==> stack[|stack| - 1 - i] == Get(q, POPPED[i])
  {
  }

  lemma IsPopped(x: Reg)
    ensures x in POPPED
  {
    assert POPPED[0] == Fs && POPPED[1] == Es && POPPED[2] == Ds && POPPED[3] == Ebp && POPPED[4] == Esi;
    assert POPPED[5] == Edi && POPPED[6] == Edx && POPPED[7] == Ecx && POPPED[8] == Ebx && POPPED[9] == Eax;
  }

  lemma FrameInTwo(base: word, s: seq<word>, q: Registers, code: word, n: nat)
    requires n == |s| + 10
    ensures |s + Frame(base, q, code, |s|)| == n + 2 && (s + Frame(base, q, code, |s|))[..n] == s + Saved(q)
  {
  }

  lemma AllPopsRestore(base: word, l: Local, s: seq<word>, q: Registers)
    requires l.stack == s + Saved(q)
    ensures Restores(base, PopRegs(POPPED, Return), l, [], s, q)
  {
    SavedWhere(l.stack, s, q);
    forall x: Reg ensures x in POPPED { IsPopped(x); }
    PopsRestore(base, POPPED, l, s, q);
  }

  /** A call with two arguments and the addl behind it. */
  lemma PrependCallWithArguments(base: word, call: Step, rest: Code, l: Local, m: Local, c: Called, s: seq<word>,
                                 q: Registers)
    requires call.Call? && call.args == 2 && StepSteady(base, call, l) && c == Called(TargetOf(call.target, l.r), 2, l)
    requires m == Effect(base, Discard(2), Effect(base, call, l)) && Restores(base, rest, m, [], s, q)
    ensures Restores(base, Then(call, Then(Discard(2), rest)), l, [c], s, q)
  {
    var m' := Effect(base, call, l);
    AfterCall(base, call, l, m', |l.stack| - 2);
    Prepend(base, Then(Discard(2), rest), m', m, [], s, q);
    PrependCall(base, Then(call, Then(Discard(2), rest)), l, m', c, s, q);
  }

  /** What such a call leaves. */
  lemma BehindCall(base: word, call: Step, l: Local, m: Local, below: seq<word>)
    requires call.Call? && call.args == 2 && StepSteady(base, call, l)
    requires m == Effect(base, Discard(2), Effect(base, call, l)) && 2 <= |l.stack|
    requires below == l.stack[..|l.stack| - 2]
    ensures m.stack == below && m.r == Clobbered(l.r, m.r)
  {
    AfterCall(base, call, l, Effect(base, call, l), |l.stack| - 2);
  }

  /** From the call to iret, with the frame on the stack. */
  lemma CallAndRestoreRestores(base: word, target: Reg, handler: Code, l: Local, s: seq<word>, q: Registers,
                               code: word, c: Called)
    requires l.stack == s + Frame(base, q, code, |s|) && c == Called(Get(l.r, target), 2, l)
    requires KeepsConvention(base, handler, l, 2) && Steady(base, handler, Inside(l))
    ensures Restores(base, CallAndRestore(target, handler), l, [c], s, q)
  {
    var call := Call(Through(target), 2, handler);
    var m := Effect(base, Discard(2), Effect(base, call, l));
    FrameInTwo(base, s, q, code, |s| + 10);
    BehindCall(base, call, l, m, s + Saved(q));
    AllPopsRestore(base, m, s, q);
    PrependCallWithArguments(base, call, PopRegs(POPPED, Return), l, m, c, s, q);
  }

  /** The error code and the address of the saved eip, pushed through a register, and the kernel's selector. */
  lemma PrependArguments(base: word, reg: Reg, rest: Code, l: Local, m: Local, calls: seq<Called>, s: seq<word>,
                         q: Registers, code: word)
    requires (reg.Eax? || reg.Edx?) && l.stack == s + Saved(q) + [code]
    requires m == Local(InKernelData(Set(l.r, reg, KERNEL_DATA)), s + Frame(base, q, code, |s|))
    requires Restores(base, rest, m, calls, s, q)
    ensures Restores(base, Then(Lea(reg, 11), Then(PushReg(reg), Then(MovWord(reg, KERNEL_DATA),
                       LoadSegments(reg, rest)))), l, calls, s, q)
  {
    var segments := LoadSegments(reg, rest);
    var l1 := l.(r := Set(l.r, reg, At(base, |s| - 1)));
    var l2 := Local(l1.r, m.stack);
    var l3 := l2.(r := Set(l.r, reg, KERNEL_DATA));
    assert |l.stack| - 1 - 11 == |s| - 1;
    assert m.stack == l1.stack + [At(base, |s| - 1)];
    PrependSegments(base, reg, rest, l3, m, calls, s, q);
    Prepend(base, Then(MovWord(reg, KERNEL_DATA), segments), l2, l3, calls, s, q);
    Prepend(base, Then(PushReg(reg), Then(MovWord(reg, KERNEL_DATA), segments)), l1, l2, calls, s, q);
  }

  lemma PushedIsSaved(s: seq<word>, q: Registers, r: Registers, stack: seq<word>)
    requires stack == s + [q.eax, q.ebx] && r == q.(eax := r.eax, ebx := r.ebx)
    ensures stack + Values(r, PUSHED) == s + Saved(q)
  {
    assert Values(r, PUSHED) == [r.ecx, r.edx, r.edi, r.esi, r.ebp, r.ds, r.es, r.fs];
  }

  /** The eight pushes of both stubs, behind those of eax and ebx. */
  lemma PrependSaving(base: word, rest: Code, l: Local, m: Local, calls: seq<Called>, s: seq<word>, q: Registers)
    requires l.stack == s + [q.eax, q.ebx] && l.r == q.(eax := l.r.eax, ebx := l.r.ebx)
    requires m == l.(stack := s + Saved(q)) && Restores(base, rest, m, calls, s, q)
    ensures Restores(base, PushRegs(PUSHED, rest), l, calls, s, q)
  {
    PushedIsSaved(s, q, l.r, l.stack);
    PrependPushes(base, PUSHED, rest, l, m, calls, s, q);
  }

  /** no_error_code from `pushl $0` to the call. */
  lemma PrependPlainArguments(base: word, rest: Code, l: Local, m: Local, calls: seq<Called>, s: seq<word>,
                              q: Registers)
    requires l.stack == s + Saved(q)
    requires m == Local(InKernelData(l.r.(edx := KERNEL_DATA)), s + Frame(base, q, 0, |s|))
    requires Restores(base, rest, m, calls, s, q)
    ensures Restores(base, Then(Push(0), Then(Lea(Edx, 11), Then(PushReg(Edx), Then(MovWord(Edx, KERNEL_DATA),
                       LoadSegments(Edx, rest))))), l, calls, s, q)
  {
    var l1 := l.(stack := l.stack + [0]);
    PrependArguments(base, Edx, rest, l1, m, calls, s, q, 0);
  }

  /** error_code from `pushl %eax` to the call. */
  lemma PrependCodeArguments(base: word, rest: Code, l: Local, m: Local, calls: seq<Called>, s: seq<word>,
                             q: Registers)
    requires l.stack == s + Saved(q)
    requires m == Local(InKernelData(l.r.(eax := KERNEL_DATA)), s + Frame(base, q, l.r.eax, |s|))
    requires Restores(base, rest, m, calls, s, q)
    ensures Restores(base, Then(PushReg(Eax), Then(Lea(Eax, 11), Then(PushReg(Eax), Then(MovWord(Eax, KERNEL_DATA),
                       LoadSegments(Eax, rest))))), l, calls, s, q)
  {
    var l1 := l.(stack := l.stack + [l.r.eax]);
    PrependArguments(base, Eax, rest, l1, m, calls, s, q, l.r.eax);
  }

  lemma PrependSwap(base: word, rest: Code, l: Local, m: Local, calls: seq<Called>, s: seq<word>, q: Registers,
                    target: word)
    requires l == Local(q, s + [target]) && m == Local(q.(eax := target), s + [q.eax, q.ebx])
    requires Restores(base, rest, m, calls, s, q)
    ensures Restores(base, Then(Exchange(Eax, 0), Then(PushReg(Ebx), rest)), l, calls, s, q)
  {
    var l1 := Local(q.(eax := target), s + [q.eax]);
    assert (s + [target])[|s| := q.eax] == s + [q.eax];
    assert s + [q.eax] + [q.ebx] == s + [q.eax, q.ebx];
    Prepend(base, Then(PushReg(Ebx), rest), l1, m, calls, s, q);
  }

  lemma PrependSwaps(base: word, rest: Code, l: Local, m: Local, calls: seq<Called>, s: seq<word>, q: Registers,
                     code: word, target: word)
    requires l == Local(q, s + [code, target])
    requires m == Local(q.(eax := code, ebx := target), s + [q.eax, q.ebx])
    requires Restores(base, rest, m, calls, s, q)
    ensures Restores(base, Then(Exchange(Eax, 1), Then(Exchange(Ebx, 0), rest)), l, calls, s, q)
  {
    var l1 := Local(q.(eax := code), s + [q.eax, target]);
    assert (s + [code, target])[|s| := q.eax] == s + [q.eax, target];
    assert (s + [q.eax, target])[|s| + 1 := q.ebx] == s + [q.eax, q.ebx];
    Prepend(base, Then(Exchange(Ebx, 0), rest), l1, m, calls, s, q);
  }

  /** From label no_error_code to iret; the handler's address is on top of the return frame s. */
  lemma NoErrorCodeRestores(base: word, handler: Code, target: word, l: Local, s: seq<word>, c: Called)
    requires l.stack == s + [target] && c == PlainCall(base, target, s, l.r) && HandlerKeeps(base, Some(c), handler)
    ensures Restores(base, NoErrorCode(handler), l, [c], s, l.r)
  {
    var q, rest := l.r, NoErrorCodeArguments(handler);
    var l2 := Local(q.(eax := target), s + [q.eax, q.ebx]);
    var l3 := Local(l2.r, s + Saved(q));
    CallAndRestoreRestores(base, Eax, handler, c.l, s, q, 0, c);
    PrependPlainArguments(base, CallAndRestore(Eax, handler), l3, c.l, [c], s, q);
    PrependSaving(base, rest, l2, l3, [c], s, q);
    PrependSwap(base, PushRegs(PUSHED, rest), l, l2, [c], s, q, target);
  }

  /** From label error_code to iret; on top are the handler's address and, below it, the error code. */
  lemma ErrorCodeRestores(base: word, handler: Code, target: word, code: word, l: Local, s: seq<word>, c: Called)
    requires l.stack == s + [code, target] && c == CodeCall(base, target, code, s, l.r)
    requires HandlerKeeps(base, Some(c), handler)
    ensures Restores(base, ErrorCode(handler), l, [c], s, l.r)
  {
    var q, rest := l.r, ErrorCodeArguments(handler);
    var l2 := Local(q.(eax := code, ebx := target), s + [q.eax, q.ebx]);
    var l3 := Local(l2.r, s + Saved(q));
    CallAndRestoreRestores(base, Ebx, handler, c.l, s, q, code, c);
    PrependCodeArguments(base, CallAndRestore(Ebx, handler), l3, c.l, [c], s, q);
    PrependSaving(base, rest, l2, l3, [c], s, q);
    PrependSwaps(base, PushRegs(PUSHED, rest), l, l2, [c], s, q, code, target);
  }

  /** _device_not_available up to the first jump. */
  lemma PrependMathTest(base: word, rest: Code, l: Local, m: Local, cr0: word, calls: seq<Called>, s: seq<word>,
                        q: Registers)
    requires l == Local(q, s)
    requires m == Local(q.(eax := cr0, eflags := WithFlag(Carry, q.eflags, Emulated(cr0))), s + [q.eax])
    requires Restores(base, rest, m, calls, s, q)
    ensures Restores(base, Then(PushReg(Eax), Then(Read(Eax, Cr0, cr0), Then(BitTest(Eax),
                       Then(Jump(Carry, Emulated(cr0)), rest)))), l, calls, s, q)
  {
    var l1 := Local(q, s + [q.eax]);
    var l2 := Local(q.(eax := cr0), s + [q.eax]);
    var jump := Then(Jump(Carry, Emulated(cr0)), rest);
    Prepend(base, jump, m, m, calls, s, q);
    Prepend(base, Then(BitTest(Eax), jump), l2, m, calls, s, q);
    Prepend(base, Then(Read(Eax, Cr0, cr0), Then(BitTest(Eax), jump)), l1, l2, calls, s, q);
  }

  /** From `clts` up to the second jump. */
  lemma PrependTaskTest(base: word, rest: Code, l: Local, m: Local, w: Words, calls: seq<Called>, s: seq<word>,
                        q: Registers)
    requires m == Local(l.r.(eax := w.current,
                             eflags := WithFlag(Zero, l.r.eflags, w.current == w.lastTaskUsedMath)), l.stack)
    requires Restores(base, rest, m, calls, s, q)
    ensures Restores(base, Then(Clts, Then(Read(Eax, Current, w.current),
                       Then(Compare(Eax, LastTaskUsedMath, w.lastTaskUsedMath),
                         Then(Jump(Zero, w.current == w.lastTaskUsedMath), rest)))), l, calls, s, q)
  {
    var l1 := Local(l.r.(eax := w.current), l.stack);
    var jump := Then(Jump(Zero, w.current == w.lastTaskUsedMath), rest);
    var compare := Then(Compare(Eax, LastTaskUsedMath, w.lastTaskUsedMath), jump);
    Prepend(base, jump, m, m, calls, s, q);
    Prepend(base, compare, l1, m, calls, s, q);
    Prepend(base, Then(Read(Eax, Current, w.current), compare), l, l1, calls, s, q);
  }

  /** What the last four pops of _device_not_available find. */
  lemma MathPopsRestore(base: word, l: Local, s: seq<word>, q: Registers)
    requires l.stack == s + [q.eax, q.ecx, q.edx, q.ds]
    requires l.r == q.(eax := l.r.eax, ecx := l.r.ecx, edx := l.r.edx, ds := l.r.ds, eflags := l.r.eflags)
    ensures Restores(base, PopRegs([Ds, Edx, Ecx, Eax], Return), l, [], s, q)
  {
    var regs := [Ds, Edx, Ecx, Eax];
    assert regs[0] == Ds && regs[1] == Edx && regs[2] == Ecx && regs[3] == Eax;
    PopsRestore(base, regs, l, s, q);
  }

  /** math_state_restore and the pops behind it. */
  lemma MathCallRestores(base: word, call: Step, pops: Code, l: Local, s: seq<word>, q: Registers, c: Called)
    requires call.Call? && call == Call(Direct(MathStateRestore), 0, call.handler)
    requires pops == PopRegs([Ds, Edx, Ecx, Eax], Return)
    requires c == MathCall(s, q.(eflags := l.r.eflags)) && l == c.l && StepSteady(base, call, l)
    ensures Restores(base, Then(call, pops), l, [c], s, q)
  {
    var m := Effect(base, call, l);
    AfterCall(base, call, l, m, |l.stack|);
    assert m.stack == m.stack[..|l.stack|] == l.stack;
    MathPopsRestore(base, m, s, q);
    PrependCall(base, Then(call, pops), l, m, c, s, q);
  }

  /** The pushes and moves before it. */
  lemma PrependMathMoves(base: word, regs: seq<Reg>, rest: Code, l: Local, m: Local, calls: seq<Called>,
                         s: seq<word>, q: Registers)
    requires regs == [Ecx, Edx, Ds]
    requires m == Local(l.r.(eax := KERNEL_DATA, ds := KERNEL_DATA), l.stack + [l.r.ecx, l.r.edx, l.r.ds])
    requires Restores(base, rest, m, calls, s, q)
    ensures Restores(base, PushRegs(regs, Then(MovWord(Eax, KERNEL_DATA), Then(Mov(Ds, Eax), rest))), l, calls, s, q)
  {
    var l1 := Local(l.r, m.stack);
    var l2 := Local(l.r.(eax := KERNEL_DATA), m.stack);
    assert l1.stack == l.stack + Values(l.r, regs);
    Prepend(base, Then(Mov(Ds, Eax), rest), l2, m, calls, s, q);
    Prepend(base, Then(MovWord(Eax, KERNEL_DATA), Then(Mov(Ds, Eax), rest)), l1, l2, calls, s, q);
    PrependPushes(base, regs, Then(MovWord(Eax, KERNEL_DATA), Then(Mov(Ds, Eax), rest)), l, l1, calls, s, q);
  }

  /** The call of math_state_restore with its moves and pops. */
  lemma RestoreMathRestores(base: word, handler: Code, l: Local, s: seq<word>, q: Registers, c: Called)
    requires l.stack == s + [q.eax] && l.r == q.(eax := l.r.eax, eflags := l.r.eflags)
    requires c == MathCall(s, q.(eflags := l.r.eflags)) && HandlerKeeps(base, Some(c), handler)
    ensures Restores(base, RestoreMath(handler), l, [c], s, q)
  {
    var call, pops := Call(Direct(MathStateRestore), 0, handler), PopRegs([Ds, Edx, Ecx, Eax], Return);
    MathCallRestores(base, call, pops, c.l, s, q, c);
    assert c.l.stack == l.stack + [q.ecx, q.edx, q.ds];
    PrependMathMoves(base, [Ecx, Edx, Ds], Then(call, pops), l, c.l, [c], s, q);
  }

  lemma MathEmulateRestores(base: word, handler: Code, l: Local, s: seq<word>, q: Registers, c: Called)
    requires l.stack == s + [q.eax] && l.r == q.(eax := l.r.eax, eflags := l.r.eflags)
    requires c == PlainCall(base, AddressOf(DoDeviceNotAvailable), s, q.(eflags := l.r.eflags))
    requires HandlerKeeps(base, Some(c), handler)
    ensures Restores(base, MathEmulate(handler), l, [c], s, q)
  {
    var q', rest := q.(eflags := l.r.eflags), NoErrorCode(handler);
    var l1, l2 := Local(q', s), Local(q', s + [AddressOf(DoDeviceNotAvailable)]);
    NoErrorCodeRestores(base, handler, AddressOf(DoDeviceNotAvailable), l2, s, c);
    FlagsAside(base, rest, l2, [c], s, q, q');
    Prepend(base, Then(Push(AddressOf(DoDeviceNotAvailable)), rest), l1, l2, [c], s, q);
    assert (s + [q.eax])[..|s|] == s;
    Prepend(base, MathEmulate(handler), l, l1, [c], s, q);
  }

  /** Label 1 of _device_not_available. */
  lemma LastPopRestores(base: word, l: Local, s: seq<word>, q: Registers)
    requires l.stack == s + [q.eax] && l.r == q.(eax := l.r.eax, eflags := l.r.eflags)
    ensures Restores(base, Then(PopReg(Eax), Return), l, [], s, q)
  {
    assert (s + [q.eax])[..|s|] == s;
  }

  lemma MathTaskRestores(base: word, w: Words, handler: Code, l: Local, s: seq<word>, q: Registers, f: word,
                         c: Called)
    requires l.stack == s + [q.eax] && l.r == q.(eax := l.r.eax, eflags := l.r.eflags)
    requires f == WithFlag(Zero, l.r.eflags, w.current == w.lastTaskUsedMath)
    requires c == MathCall(s, q.(eflags := f))
    requires w.current != w.lastTaskUsedMath ==> HandlerKeeps(base, Some(c), handler)
    ensures Restores(base, MathTask(w, handler), l, if w.current == w.lastTaskUsedMath then [] else [c], s, q)
  {
    var m := Local(l.r.(eax := w.current, eflags := f), l.stack);
    if w.current == w.lastTaskUsedMath {
      LastPopRestores(base, m, s, q);
      PrependTaskTest(base, Then(PopReg(Eax), Return), l, m, w, [], s, q);
    } else {
      RestoreMathRestores(base, handler, m, s, q, c);
      PrependTaskTest(base, RestoreMath(handler), l, m, w, [c], s, q);
    }
  }

  /** _device_not_available up to iret, on all its paths. */
  lemma DeviceNotAvailableRestores(base: word, seen: Reads, handler: Code, s: seq<word>, q: Registers, code: word)
    requires HandlerKeeps(base, Invoked(base, DeviceNotAvailable, code, s, q, seen), handler)
    ensures Restores(base, DeviceNotAvailableText(seen, handler), Local(q, s),
                     AsList(Invoked(base, DeviceNotAvailable, code, s, q, seen)), s, q)
  {
    var call := Invoked(base, DeviceNotAvailable, code, s, q, seen);
    var f := WithFlag(Carry, q.eflags, Emulated(seen.cr0));
    var m := Local(q.(eax := seen.cr0, eflags := f), s + [q.eax]);
    if Emulated(seen.cr0) {
      MathEmulateRestores(base, handler, m, s, q, call.value);
      PrependMathTest(base, MathEmulate(handler), Local(q, s), m, seen.cr0, AsList(call), s, q);
    } else {
      var f' := WithFlag(Zero, f, seen.words.current == seen.words.lastTaskUsedMath);
      MathTaskRestores(base, seen.words, handler, m, s, q, f', MathCall(s, q.(eflags := f')));
      PrependMathTest(base, MathTask(seen.words, handler), Local(q, s), m, seen.cr0, AsList(call), s, q);
    }
  }

  lemma PageFaultPops(stack: seq<word>, s: seq<word>, q: Registers)
    requires stack == s + [q.eax, q.ecx, q.edx, q.ds, q.es, q.fs]
    ensures var regs := [Fs, Es, Ds, Edx, Ecx, Eax];
            && |stack| == |s| + |regs| && stack[..|s|] == s
            && (forall i :: 0 <= i < |regs| ==> stack[|stack| - 1 - i] == Get(q, regs[i]))
            && forall x :: x !in regs ==> x == Ebx || x == Esi || x == Edi || x == Ebp
  {
    var regs := [Fs, Es, Ds, Edx, Ecx, Eax];
    assert regs[0] == Fs && regs[1] == Es && regs[2] == Ds && regs[3] == Edx && regs[4] == Ecx && regs[5] == Eax;
  }

  /** The pops of _page_fault. */
  lemma PageFaultPopsRestore(base: word, l: Local, s: seq<word>, q: Registers)
    requires l.stack == s + [q.eax, q.ecx, q.edx, q.ds, q.es, q.fs]
    requires l.r == q.(eax := l.r.eax, ecx := l.r.ecx, edx := l.r.edx, ds := l.r.ds, es := l.r.es, fs := l.r.fs,
                       eflags := l.r.eflags)
    ensures Restores(base, PopRegs([Fs, Es, Ds, Edx, Ecx, Eax], Return), l, [], s, q)
  {
    PageFaultPops(l.stack, s, q);
    PopsRestore(base, [Fs, Es, Ds, Edx, Ecx, Eax], l, s, q);
  }

  /** _page_fault from the call on. */
  lemma PageFaultCallRestores(base: word, code: word, cr2: word, handler: Code, s: seq<word>, q: Registers,
                              c: Called)
    requires c == PageFaultCall(code, cr2, s, q) && HandlerKeeps(base, Some(c), handler)
    ensures Restores(base, PageFaultCallAndRestore(code, handler), c.l, [c], s, q)
  {
    var call := Call(Direct(if code % 2 == 0 then DoNoPage else DoWpPage), 2, handler);
    var m := Effect(base, Discard(2), Effect(base, call, c.l));
    var saved := s + [q.eax, q.ecx, q.edx, q.ds, q.es, q.fs];
    assert c.l.stack == saved + [cr2, code];
    BehindCall(base, call, c.l, m, saved);
    PageFaultPopsRestore(base, m, s, q);
    PrependCallWithArguments(base, call, PopRegs([Fs, Es, Ds, Edx, Ecx, Eax], Return), c.l, m, c, s, q);
  }

  /** testl and the jump behind it. */
  lemma PrependOddTest(base: word, up: bool, rest: Code, l: Local, m: Local, calls: seq<Called>, s: seq<word>,
                       q: Registers)
    requires up == (l.r.eax % 2 == 0) && m == Local(l.r.(eflags := WithFlag(Zero, l.r.eflags, up)), l.stack)
    requires Restores(base, rest, m, calls, s, q)
    ensures Restores(base, Then(TestOdd(Eax), Then(Jump(Zero, up), rest)), l, calls, s, q)
  {
    Prepend(base, Then(Jump(Zero, up), rest), m, m, calls, s, q);
    Prepend(base, Then(TestOdd(Eax), Then(Jump(Zero, up), rest)), l, m, calls, s, q);
  }

  /** movl %cr2,%edx; pushl %edx; pushl %eax. */
  lemma PrependPageFaultPushes(base: word, rest: Code, l: Local, m: Local, cr2: word, calls: seq<Called>,
                               s: seq<word>, q: Registers)
    requires m == Local(l.r.(edx := cr2), l.stack + [cr2, l.r.eax]) && Restores(base, rest, m, calls, s, q)
    ensures Restores(base, Then(Read(Edx, Cr2, cr2), Then(PushReg(Edx), Then(PushReg(Eax), rest))), l, calls, s, q)
  {
    var l1 := Local(m.r, l.stack);
    var l2 := Local(m.r, l.stack + [cr2]);
    assert l2.stack + [l.r.eax] == m.stack;
    Prepend(base, Then(PushReg(Eax), rest), l2, m, calls, s, q);
    Prepend(base, Then(PushReg(Edx), Then(PushReg(Eax), rest)), l1, l2, calls, s, q);
  }

  /** _page_fault from `movl $0x10,%edx` to the jump. */
  lemma PrependPageFaultArguments(base: word, rest: Code, l: Local, m: Local, code: word, cr2: word,
                                  calls: seq<Called>, s: seq<word>, q: Registers)
    requires l.r.eax == code
    requires m == Local(InKernelData(l.r.(edx := cr2, eflags := WithFlag(Zero, l.r.eflags, code % 2 == 0))),
                        l.stack + [cr2, code])
    requires Restores(base, rest, m, calls, s, q)
    ensures Restores(base, Then(MovWord(Edx, KERNEL_DATA), LoadSegments(Edx, Then(Read(Edx, Cr2, cr2),
                       Then(PushReg(Edx), Then(PushReg(Eax), Then(TestOdd(Eax),
                         Then(Jump(Zero, code % 2 == 0), rest))))))), l, calls, s, q)
  {
    var test := Then(TestOdd(Eax), Then(Jump(Zero, code % 2 == 0), rest));
    var read := Then(Read(Edx, Cr2, cr2), Then(PushReg(Edx), Then(PushReg(Eax), test)));
    var l1 := Local(l.r.(edx := KERNEL_DATA), l.stack);
    var l2 := Local(InKernelData(l1.r), l.stack);
    var l3 := Local(l2.r.(edx := cr2), m.stack);
    PrependOddTest(base, code % 2 == 0, rest, l3, m, calls, s, q);
    PrependPageFaultPushes(base, test, l2, l3, cr2, calls, s, q);
    PrependSegments(base, Edx, read, l1, l2, calls, s, q);
  }

  /** xchgl %eax,(%esp) and the five pushes of _page_fault. */
  lemma PrependPageFaultSaving(base: word, rest: Code, l: Local, m: Local, code: word, regs: seq<Reg>,
                               calls: seq<Called>, s: seq<word>, q: Registers)
    requires regs == [Ecx, Edx, Ds, Es, Fs] && l == Local(q, s + [code])
    requires m == Local(q.(eax := code), s + [q.eax, q.ecx, q.edx, q.ds, q.es, q.fs])
    requires Restores(base, rest, m, calls, s, q)
    ensures Restores(base, Then(Exchange(Eax, 0), PushRegs(regs, rest)), l, calls, s, q)
  {
    var l1 := Local(m.r, s + [q.eax]);
    assert m.stack == l1.stack + Values(l1.r, regs);
    PrependPushes(base, regs, rest, l1, m, calls, s, q);
    assert (s + [code])[|s| := q.eax] == s + [q.eax];
    Prepend(base, Then(Exchange(Eax, 0), PushRegs(regs, rest)), l, l1, calls, s, q);
  }

  /** _page_fault up to iret; the error code is on top of the return frame s. */
  lemma PageFaultRestores(base: word, code: word, cr2: word, handler: Code, s: seq<word>, q: Registers, c: Called)
    requires c == PageFaultCall(code, cr2, s, q) && HandlerKeeps(base, Some(c), handler)
    ensures Restores(base, PageFaultText(code, cr2, handler), Local(q, s + [code]), [c], s, q)
  {
    var l := Local(q.(eax := code), s + [q.eax, q.ecx, q.edx, q.ds, q.es, q.fs]);
    PageFaultCallRestores(base, code, cr2, handler, s, q, c);
    assert c.l.stack == l.stack + [cr2, code];
    PrependPageFaultArguments(base, PageFaultCallAndRestore(code, handler), l, c.l, code, cr2, [c], s, q);
    PrependPageFaultSaving(base, PageFaultArguments(code, cr2, handler), Local(q, s + [code]), l, code,
                           [Ecx, Edx, Ds, Es, Fs], [c], s, q);
  }

  /** pushl of the function that a common stub is to call. */
  lemma PrependFunction(base: word, rest: Code, target: word, l: Local, m: Local, c: Called, s: seq<word>,
                        q: Registers)
    requires m == l.(stack := l.stack + [target]) && Restores(base, rest, m, [c], s, q)
    ensures Restores(base, Then(Push(target), rest), l, [c], s, q)
  {
  }

  /** The entry points that push a function and jump to one of the common stubs. */
  lemma CommonRestores(base: word, target: word, withCode: bool, code: word, s: seq<word>, q: Registers,
                       handler: Code, c: Called)
    requires c == CommonCall(base, target, withCode, code, s, q)
    requires HandlerKeeps(base, Some(c), handler)
    ensures Restores(base, CommonText(target, withCode, handler), Local(q, if withCode then s + [code] else s),
                     [c], s, q)
  {
    if withCode {
      var m := Local(q, s + [code, target]);
      assert s + [code] + [target] == m.stack;
      ErrorCodeRestores(base, handler, target, code, m, s, c);
      PrependFunction(base, ErrorCode(handler), target, Local(q, s + [code]), m, c, s, q);
    } else {
      var m := Local(q, s + [target]);
      NoErrorCodeRestores(base, handler, target, m, s, c);
      PrependFunction(base, NoErrorCode(handler), target, Local(q, s), m, c, s, q);
    }
  }

  /** Every entry point, with an error code on the stack if it takes one. */
  lemma EntryRestores(base: word, e: Entry, code: word, s: seq<word>, q: Registers, seen: Reads, handler: Code)
    requires HandlerKeeps(base, Invoked(base, e, code, s, q, seen), handler)
    ensures Restores(base, Text(e, code, seen, handler), Local(q, if TakesCode(e) then s + [code] else s),
                     AsList(Invoked(base, e, code, s, q, seen)), s, q)
  {
    match e
    case PageFault => PageFaultRestores(base, code, seen.cr2, handler, s, q, PageFaultCall(code, seen.cr2, s, q));
    case DeviceNotAvailable => DeviceNotAvailableRestores(base, seen, handler, s, q, code);
    case Common(f, withCode) =>
      var target := AddressOf(f);
      CommonRestores(base, target, withCode, code, s, q, handler, CommonCall(base, target, withCode, code, s, q));
  }

  /**
   * Every vector, on the return frame s and with the error code that the processor pushes:
   * its entry point makes the one call that it is to make, on the frame that the called
   * function expects, and reaches iret with all registers as at its entry and esp on the
   * return frame. All that is asked of the called function is the C convention.
   */
  lemma StubRestores(base: word, vector: nat, code: word, s: seq<word>, q: Registers, seen: Reads, handler: Code)
    requires HandlerKeeps(base, Invoked(base, EntryAt(vector), code, s, q, seen), handler)
    ensures Restores(base, Text(EntryAt(vector), code, seen, handler), Entered(vector, code, s, q),
                     AsList(Invoked(base, EntryAt(vector), code, s, q, seen)), s, q)
  {
    GatesMatch(vector);
    EntryRestores(base, EntryAt(vector), code, s, q, seen, handler);
  }

  /** What lies n words above an address. */
  lemma AddressAbove(base: word, index: int, n: nat)
    ensures At(base, index - n) == Wrap(At(base, index) + 4 * n)
  {
    var x := base - 4 * index;
    assert base - 4 * (index - n) == x + 4 * n;
    WrapOfSum(x, 4 * n);
  }

  lemma WrapOfSum(x: int, d: int)
    ensures Wrap(x + d) == Wrap(Wrap(x) + d)
  {
    var k := x / WORD_LIMIT;
    assert x + d == Wrap(x) + d + k * WORD_LIMIT;
  }

  /** Read as the argument list of do_int3: two arguments and then the saved registers. */
  lemma FrameAsArguments(base: word, q: Registers, code: word, s: seq<word>)
    requires s != []
    ensures var found, top := s + Frame(base, q, code, |s|), |s| + 11;
            && |found| == top + 1
            && found[top] == At(base, |s| - 1) == Wrap(At(base, top - 1) + 44)
            && found[top - 1] == code
            && found[top - 2] == q.fs && found[top - 3] == q.es && found[top - 4] == q.ds
            && found[top - 5] == q.ebp && found[top - 6] == q.esi && found[top - 7] == q.edi
            && found[top - 8] == q.edx && found[top - 9] == q.ecx && found[top - 10] == q.ebx
            && found[top - 11] == q.eax && found[top - 12] == s[|s| - 1]
  {
    AddressAbove(base, |s| + 10, 11);
  }

  /** What the exception handlers of vectors 0 to 16 are; 7 and 14 have entry points of their own. */
  const HANDLERS := [DoDivideError, DoInt3, DoNmi, DoInt3, DoOverflow, DoBounds, DoInvalidOp,
    DoDeviceNotAvailable, DoDoubleFault, DoCoprocessorSegmentOverrun, DoInvalidTss, DoSegmentNotPresent,
    DoStackSegment, DoGeneralProtection, DoNoPage, DoReserved, DoCoprocessorError]

  lemma CommonVector(vector: nat)
    requires vector != 7 && vector != 14
    ensures EntryAt(vector) == Common(if vector < 17 then HANDLERS[vector] else DoReserved,
                                      vector == 8 || 10 <= vector <= 13)
  {
  }

  /**
   * One more word of error code below the handler's address makes no difference to what
   * the handler finds: its first argument is the address of the saved eip, 44 bytes above
   * its second argument, which is the error code or 0, followed by the saved registers.
   * It runs on the kernel data segment.
   */
  lemma SameFrameFromBothStubs(base: word, vector: nat, code: word, s: seq<word>, q: Registers, seen: Reads)
    requires s != [] && vector != 7 && vector != 14
    ensures var call := Invoked(base, EntryAt(vector), code, s, q, seen);
            call.Some? &&
            var c, found, top := call.value, call.value.l.stack, |s| + 11;
            && c.target == AddressOf(if vector < 17 then HANDLERS[vector] else DoReserved) && c.args == 2
            && c.l.r.ds == c.l.r.es == c.l.r.fs == 0x10
            && |found| == top + 1
            && found[top] == At(base, |s| - 1) == Wrap(At(base, top - 1) + 44)
            && found[top - 1] == (if vector == 8 || 10 <= vector <= 13 then code else 0)
            && found[top - 2] == q.fs && found[top - 3] == q.es && found[top - 4] == q.ds
            && found[top - 5] == q.ebp && found[top - 6] == q.esi && found[top - 7] == q.edi
            && found[top - 8] == q.edx && found[top - 9] == q.ecx && found[top - 10] == q.ebx
            && found[top - 11] == q.eax && found[top - 12] == s[|s| - 1]
  {
    var withCode := vector == 8 || 10 <= vector <= 13;
    CommonVector(vector);
    FrameAsArguments(base, q, if withCode then code else 0, s);
  }

  /** What that address points to: eip, cs, eflags, and for user code esp and ss. */
  lemma SavedContext(l: Local, eip: word, cs: word, ss: word, esp: word)
    ensures var s, n := ReturnFrame(l, eip, cs), |l.stack| + 3;
            |s| == n && s[n - 1] == eip && s[n - 2] == cs && s[n - 3] == l.r.eflags
    ensures l.stack == [ss, esp] ==> ReturnFrame(l, eip, cs) == [ss, esp, l.r.eflags, cs, eip]
  {
  }

  /**
   * What a page fault calls: do_wp_page when bit 0 of the error code says that the page is
   * there, do_no_page when it is missing, with the code and the address as arguments.
   */
  lemma PageFaultCalls(base: word, code: word, s: seq<word>, q: Registers, seen: Reads)
    ensures var call := Invoked(base, EntryAt(14), code, s, q, seen);
            call.Some? &&
            var c, top := call.value, |call.value.l.stack| - 1;
            && c.target == AddressOf(if code % 2 == 1 then DoWpPage else DoNoPage) && c.args == 2
            && top >= 2 && c.l.stack[top] == code && c.l.stack[top - 1] == seen.cr2
            && c.l.r.ds == c.l.r.es == c.l.r.fs == 0x10
  {
    AddressesDiffer(DoNoPage, DoWpPage);
  }

  /**
   * What device_not_available calls when it reads cr0 with these bits 3 and up, bit 2 and
   * bits 0 and 1.
   */
  lemma DeviceNotAvailableCalls(base: word, code: word, s: seq<word>, q: Registers, seen: Reads, high: nat, em: nat,
                                low: nat)
    requires em < 2 && low < 4 && seen.cr0 == 8 * high + 4 * em + low
    ensures var call := Invoked(base, EntryAt(7), code, s, q, seen);
            if em == 1 then
              call.Some? &&
              var c := call.value;
              && c.target == AddressOf(DoDeviceNotAvailable) && c.args == 2
              && c.l.r.ds == c.l.r.es == c.l.r.fs == 0x10 && c.l.stack == s + Frame(base, q, 0, |s|)
            else if seen.words.current == seen.words.lastTaskUsedMath then
              call == None
            else
              call.Some? &&
              var c := call.value;
              && c.target == AddressOf(MathStateRestore) && c.args == 0
              && c.l.r.ds == 0x10 && c.l.r.es == q.es && c.l.r.fs == q.fs
  {
    EmulationIsBitTwo(high, em, low);
  }
}
