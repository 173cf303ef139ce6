/** The two assembly routines that take a user program off the processor and put one back on it. */
module ContextSwitch {
  type Word = x: int | 0 <= x < 0x1_0000_0000

  const USER_DATA: Word := 0x23
  const USER_CODE: Word := 0x1B
  const KERNEL_DATA: Word := 0x10
  const KERNEL_CODE: Word := 0x08

  /** The ten registers of a user program that must survive preemption. */
  datatype UserState = UserState(eip: Word, esp: Word, eflags: Word,
                                 eax: Word, ebx: Word, ecx: Word, edx: Word, esi: Word, edi: Word, ebp: Word)

  /** struct CPURegister, in memory order. */
  datatype Registers = Registers(edi: Word, esi: Word, ebp: Word, esp: Word, ebx: Word, edx: Word, ecx: Word, eax: Word,
                                 gs: Word, fs: Word, es: Word, ds: Word)

  /** struct Context without its page directory. */
  datatype Context = Context(cpu: Registers, eip: Word, eflags: Word)

  /** The user program that a context resumes. */
  function Resumed(c: Context): UserState {
    UserState(c.eip, c.cpu.esp, c.eflags, c.cpu.eax, c.cpu.ebx, c.cpu.ecx, c.cpu.edx, c.cpu.esi, c.cpu.edi, c.cpu.ebp)
  }

  /** The words from a stack pointer on; the pointer itself is the stack that it points to. */
  datatype Stack = Bottom | Push(top: Word, above: Stack)

  /** The word at [p + 4 * k]. */
  function At(p: Stack, k: nat): Word
    decreases k
  {
    if p.Bottom? then 0 else if k == 0 then p.top else At(p.above, k - 1)
  }

  /** The pointer p + 4 * k. */
  function Skip(p: Stack, k: nat): Stack
    decreases k
  {
    if k == 0 || p.Bottom? then p else Skip(p.above, k - 1)
  }

  /** The stack after a store to [p + 4 * k]. */
  function Store(p: Stack, k: nat, w: Word): Stack
    decreases k
  {
    if p.Bottom? then p else if k == 0 then p.(top := w) else p.(above := Store(p.above, k - 1, w))
  }

  lemma {:induction false} AtSkip(p: Stack, a: nat, b: nat)
    ensures At(Skip(p, a), b) == At(p, a + b) && Skip(Skip(p, a), b) == Skip(p, a + b)
    decreases a
  {
    if a > 0 && p.Push? {
      AtSkip(p.above, a - 1, b);
    }
  }

  /** The InterruptFrame parameter of main_interrupt_handler, as it becomes a Context. */
  function FrameContext(p: Stack): Context {
    Context(Registers(At(p, 0), At(p, 1), At(p, 2), At(p, 3), At(p, 4), At(p, 5), At(p, 6), At(p, 7),
                      At(p, 8), At(p, 9), At(p, 10), At(p, 11)), At(p, 14), At(p, 16))
  }

  /** A context, and a page directory pointer, laid out at a stack pointer. */
  function ContextAt(c: Context, directory: Word, p: Stack): Stack {
    Push(c.cpu.edi, Push(c.cpu.esi, Push(c.cpu.ebp, Push(c.cpu.esp, Push(c.cpu.ebx, Push(c.cpu.edx, Push(c.cpu.ecx,
    Push(c.cpu.eax, Push(c.cpu.gs, Push(c.cpu.fs, Push(c.cpu.es, Push(c.cpu.ds, Push(c.eip, Push(c.eflags,
    Push(directory, p)))))))))))))))
  }

  /** The stack at the call of main_interrupt_handler: registers c, and the stack pointer that the processor pushed. */
  function FrameAt(c: Context, esp: Word, vector: Word, cs: Word, ss: Word, p: Stack): Stack {
    Push(c.cpu.edi, Push(c.cpu.esi, Push(c.cpu.ebp, Push(c.cpu.esp, Push(c.cpu.ebx, Push(c.cpu.edx, Push(c.cpu.ecx,
    Push(c.cpu.eax, Push(c.cpu.gs, Push(c.cpu.fs, Push(c.cpu.es, Push(c.cpu.ds,
    Push(vector, Push(0, Push(c.eip, Push(cs, Push(c.eflags, Push(esp, Push(ss, p)))))))))))))))))))
  }

  lemma PushedFive(a: Word, b: Word, c: Word, d: Word, e: Word, p: Stack)
    ensures var s := Push(a, Push(b, Push(c, Push(d, Push(e, p)))));
      At(s, 0) == a && At(s, 1) == b && At(s, 2) == c && At(s, 3) == d && At(s, 4) == e && Skip(s, 5) == p
  {
  }

  /** The handler's parameter is the context that was stored; what the processor pushed lies behind it. */
  lemma FrameHoldsContext(c: Context, esp: Word, vector: Word, cs: Word, ss: Word, p: Stack)
    ensures var s := FrameAt(c, esp, vector, cs, ss, p);
      && FrameContext(s) == c && Skip(s, 19) == p
      && At(s, 15) == cs && At(s, 17) == esp && At(s, 18) == ss
  {
    var s := FrameAt(c, esp, vector, cs, ss, p);
    var saved := Push(c.eip, Push(cs, Push(c.eflags, Push(esp, Push(ss, p)))));
    var upper := Push(vector, Push(0, saved));
    PushedFive(saved.top, cs, c.eflags, esp, ss, p);
    AtSkip(upper, 2, 5);
    AtSkip(upper, 2, 0);
    AtSkip(upper, 2, 1);
    AtSkip(upper, 2, 2);
    AtSkip(upper, 2, 3);
    AtSkip(upper, 2, 4);
    assert Skip(s, 12) == upper;
    AtSkip(s, 12, 2);
    AtSkip(s, 12, 3);
    AtSkip(s, 12, 4);
    AtSkip(s, 12, 5);
    AtSkip(s, 12, 6);
    AtSkip(s, 12, 7);
  }

  /** Behind the saved registers, the vector and the error code lie the five words that iret takes. */
  lemma InterruptStackAt(frame: Stack, p: Stack)
    requires p == Skip(frame, 14)
    ensures At(p, 0) == At(frame, 14) && At(p, 1) == At(frame, 15) && At(p, 2) == At(frame, 16)
    ensures At(p, 3) == At(frame, 17) && At(p, 4) == At(frame, 18) && Skip(p, 5) == Skip(frame, 19)
  {
    AtSkip(frame, 14, 0);
    AtSkip(frame, 14, 1);
    AtSkip(frame, 14, 2);
    AtSkip(frame, 14, 3);
    AtSkip(frame, 14, 4);
    AtSkip(frame, 14, 5);
  }

  /** The privilege level in a segment selector. */
  function Privilege(selector: Word): int {
    selector % 4
  }

  /** The processor and the kernel stack. */
  class Machine {
    var r: Registers
    var ss: Word
    var cs: Word
    var eip: Word
    var eflags: Word
    var stack: Stack

    constructor () {
      stack := Bottom;
    }

    /** The state of the program on the processor. */
    function User(): (u: UserState)
      reads this
      ensures u.eip == eip && u.eflags == eflags && u.esp == r.esp && u.ebp == r.ebp && u.esi == r.esi && u.edi == r.edi
      ensures u.eax == r.eax && u.ebx == r.ebx && u.ecx == r.ecx && u.edx == r.edx
    {
      Resumed(Context(r, eip, eflags))
    }

    /** What the handler finds: the program's own context, unless its data segment has kernel privilege. */
    function Seen(kernelEsp: Word): Context
      reads this
    {
      Context(if Privilege(r.ds) != 0 then r else r.(esp := kernelEsp), eip, eflags)
    }

    /**
     * An interrupt of a user program: what the processor pushes when it changes privilege, then the
     * stub and call_generic_handler up to its call. `kernelEsp` is the stack pointer that pushad
     * saves; the program's own is patched in if its data segment has user privilege.
     */
    method EnterHandler(vector: Word, kernelEsp: Word)
      modifies this
      ensures stack == FrameAt(old(Seen(kernelEsp)), old(r.esp), vector, old(cs), old(ss), old(stack))
      ensures cs == KERNEL_CODE && ss == r.ds == r.es == r.fs == r.gs == KERNEL_DATA
    {
      stack := Push(eip, Push(cs, Push(eflags, Push(r.esp, Push(ss, stack)))));
      ss, cs := KERNEL_DATA, KERNEL_CODE;
      r := r.(esp := kernelEsp);
      stack := Push(vector, Push(0, stack));
      stack := Push(r.gs, Push(r.fs, Push(r.es, Push(r.ds, stack))));
      ghost var segments := stack;
      stack := Push(r.ebx, Push(r.edx, Push(r.ecx, Push(r.eax, stack))));
      stack := Push(r.edi, Push(r.esi, Push(r.ebp, Push(r.esp, stack))));
      stack := Push(r.eax, Push(eflags, stack));
      assert Skip(stack, 10) == segments;
      AtSkip(stack, 10, 3);
      AtSkip(stack, 10, 9);
      r := r.(eax := At(stack, 13));
      r := r.(eax := Privilege(r.eax));
      if r.eax != 0 {
        r := r.(eax := At(stack, 19));
        stack := Store(stack, 5, r.eax);
      }
      r := r.(ds := KERNEL_DATA, es := KERNEL_DATA, fs := KERNEL_DATA, gs := KERNEL_DATA);
      r := r.(eax := At(stack, 0));
      eflags := At(stack, 1);
      stack := Skip(stack, 2);
      r := r.(ebp := r.esp);
    }

    /** iret to a user program. */
    method ReturnToUser()
      modifies this
      ensures r == old(r).(esp := At(old(stack), 3))
      ensures eip == At(old(stack), 0) && cs == At(old(stack), 1) && eflags == At(old(stack), 2)
      ensures ss == At(old(stack), 4) && stack == Skip(old(stack), 5)
    {
      eip, cs, eflags := At(stack, 0), At(stack, 1), At(stack, 2);
      r, ss := r.(esp := At(stack, 3)), At(stack, 4);
      stack := Skip(stack, 5);
    }

    /** popad, which skips the stack pointer, and the four segment registers. */
    method PopRegisters()
      modifies this
      ensures r == FrameContext(old(stack)).cpu.(esp := old(r.esp)) && stack == Skip(old(stack), 12)
      ensures eip == old(eip) && cs == old(cs) && eflags == old(eflags) && ss == old(ss)
    {
      ghost var frame := stack;
      r := r.(edi := At(stack, 0), esi := At(stack, 1), ebp := At(stack, 2), ebx := At(stack, 4));
      r := r.(edx := At(stack, 5), ecx := At(stack, 6), eax := At(stack, 7));
      stack := Skip(stack, 8);
      AtSkip(frame, 8, 0);
      AtSkip(frame, 8, 1);
      AtSkip(frame, 8, 2);
      AtSkip(frame, 8, 3);
      r := r.(gs := At(stack, 0), fs := At(stack, 1), es := At(stack, 2), ds := At(stack, 3));
      AtSkip(frame, 8, 4);
      stack := Skip(stack, 4);
    }

    /** The end of call_generic_handler, when the handler returned without switching. */
    method LeaveHandler()
      modifies this
      ensures var c := FrameContext(old(stack));
        r == c.cpu.(esp := At(old(stack), 17)) && eip == c.eip && eflags == c.eflags
      ensures cs == At(old(stack), 15) && ss == At(old(stack), 18) && stack == Skip(old(stack), 19)
    {
      ghost var frame := stack;
      PopRegisters();
      AtSkip(frame, 12, 2);
      stack := Skip(stack, 2);
      InterruptStackAt(frame, stack);
      ReturnToUser();
    }

    /** An interrupt that does not switch gives the program back every register, segments included. */
    method InterruptAndReturn(vector: Word, kernelEsp: Word)
      modifies this
      ensures r == old(r) && eip == old(eip) && eflags == old(eflags)
      ensures cs == old(cs) && ss == old(ss) && stack == old(stack)
    {
      FrameHoldsContext(Seen(kernelEsp), r.esp, vector, cs, ss, stack);
      EnterHandler(vector, kernelEsp);
      LeaveHandler();
    }

    /** process_context_switch, called with its parameter by value on the stack. */
    method SwitchTo(ctx: Context, directory: Word, returnAddress: Word)
      modifies this
      ensures User() == Resumed(ctx)
      ensures r.eax == ctx.cpu.eax && r.ebx == ctx.cpu.ebx && r.ecx == ctx.cpu.ecx && r.edx == ctx.cpu.edx
      ensures r.esi == ctx.cpu.esi && r.edi == ctx.cpu.edi && r.ebp == ctx.cpu.ebp && r.esp == ctx.cpu.esp
      ensures eip == ctx.eip && eflags == ctx.eflags
      ensures cs == USER_CODE && ss == r.ds == r.es == r.fs == r.gs == USER_DATA && Privilege(r.ds) != 0
    {
      stack := Push(returnAddress, ContextAt(ctx, directory, stack));
      var base := Skip(stack, 1);  // what ecx points to
      r := r.(eax := USER_DATA);
      r := r.(ds := r.eax, es := r.eax, fs := r.eax, gs := r.eax);
      stack := Push(r.eax, stack);
      stack := Push(At(base, 3), stack);
      stack := Push(At(base, 13), stack);
      stack := Push(USER_CODE, stack);
      stack := Push(At(base, 12), stack);
      r := r.(edi := At(base, 0), esi := At(base, 1), ebp := At(base, 2));
      r := r.(ebx := At(base, 4), edx := At(base, 5), eax := At(base, 7), ecx := At(base, 6));
      ReturnToUser();
    }

    /**
     * A program that is interrupted, copied from the handler's parameter and switched to resumes as
     * it was exactly if its data segment has user privilege, or its stack pointer is the kernel's.
     */
    method PreemptAndResume(vector: Word, kernelEsp: Word, directory: Word, returnAddress: Word)
      modifies this
      ensures User() == old(User()) <==> Privilege(old(r.ds)) != 0 || kernelEsp == old(r.esp)
      ensures r.eax == old(r.eax) && r.ebx == old(r.ebx) && r.ecx == old(r.ecx) && r.edx == old(r.edx)
      ensures r.esi == old(r.esi) && r.edi == old(r.edi) && r.ebp == old(r.ebp)
      ensures eip == old(eip) && eflags == old(eflags)
      ensures r.esp == if Privilege(old(r.ds)) != 0 then old(r.esp) else kernelEsp
    {
      FrameHoldsContext(Seen(kernelEsp), r.esp, vector, cs, ss, stack);
      EnterHandler(vector, kernelEsp);
      var saved := FrameContext(stack);
      SwitchTo(saved, directory, returnAddress);
    }
  }
}
