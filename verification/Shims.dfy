/** The naked assembly shims for calls no named convention can express, run on a small x86 model. */
module Shims {
  type Word = int

  /** A four-byte stack cell: a word, or one half of a spilled double. */
  datatype Cell = Word(w: Word) | Half(value: real, high: bool)

  datatype Instr =
    | PushEcx | PushEdx | PushEax | PopEcx | PopEdx
    | SubEsp(n: nat) | AddEsp(n: nat)
    | LeaEax(offset: nat)
    | Fxch
    | FstpQword(offset: nat)
    | CallInner(argBytes: nat)
    | Ret
    | JmpTrampoline

  datatype Target = Next | Address(cell: Cell) | Trampoline

  /**
   * Registers, memory by byte address, the x87 stack with its top first, the argument areas of inner
   * calls, and where control went.
   */
  datatype Cpu = Cpu(eax: Word, ecx: Word, edx: Word, esp: int, mem: map<int, Cell>, fpu: seq<real>,
                     calls: seq<seq<Cell>>, target: Target)

  /**
   * An ordinary cdecl function: free to choose its results from its arguments,
   * to clobber the volatiles, and to overwrite its argument area and
   * everything below it; it leaves the stack pointer where it was.
   */
  datatype Inner = Inner(eax: seq<Cell> -> Word, ecx: seq<Cell> -> Word, edx: seq<Cell> -> Word,
                         returned: seq<Cell> -> seq<real>, scratch: seq<Cell> -> map<int, Cell>)

  function Read(mem: map<int, Cell>, address: int): Cell {
    if address in mem then mem[address] else Word(0)
  }

  /** The argument cells at the stack top. */
  function Args(mem: map<int, Cell>, esp: int, bytes: nat): seq<Cell>
    decreases bytes
  {
    if bytes < 4 then [] else [Read(mem, esp)] + Args(mem, esp + 4, bytes - 4)
  }

  /** Memory after a callee: unchanged from `limit` up, whatever the callee left below. */
  function Kept(mem: map<int, Cell>, limit: int, scratch: map<int, Cell>): map<int, Cell> {
    map a | a in mem.Keys + scratch.Keys && (if a >= limit then a in mem else a in scratch) ::
      if a >= limit then mem[a] else scratch[a]
  }

  function Push(c: Cpu, cell: Cell): Cpu {
    c.(esp := c.esp - 4, mem := c.mem[c.esp - 4 := cell])
  }

  predicate CanStep(c: Cpu, i: Instr) {
    match i
    case Fxch => |c.fpu| >= 2
    case FstpQword(_) => |c.fpu| >= 1
    case _ => true
  }

  function Step(c: Cpu, i: Instr, inner: Inner): Cpu
    requires CanStep(c, i)
  {
    match i
    case PushEcx => Push(c, Word(c.ecx))
    case PushEdx => Push(c, Word(c.edx))
    case PushEax => Push(c, Word(c.eax))
    case PopEcx => c.(ecx := AsWord(Read(c.mem, c.esp)), esp := c.esp + 4)
    case PopEdx => c.(edx := AsWord(Read(c.mem, c.esp)), esp := c.esp + 4)
    case SubEsp(n) => c.(esp := c.esp - n)
    case AddEsp(n) => c.(esp := c.esp + n)
    case LeaEax(offset) => c.(eax := c.esp + offset)
    case Fxch => c.(fpu := [c.fpu[1], c.fpu[0]] + c.fpu[2..])
    case FstpQword(offset) =>
      var a := c.esp + offset;
      c.(mem := c.mem[a := Half(c.fpu[0], false)][a + 4 := Half(c.fpu[0], true)], fpu := c.fpu[1..])
    case CallInner(bytes) =>
      var args := Args(c.mem, c.esp, bytes);
      Cpu(inner.eax(args), inner.ecx(args), inner.edx(args), c.esp,
          Kept(c.mem, c.esp + bytes, inner.scratch(args)), inner.returned(args) + c.fpu, c.calls + [args], c.target)
    case Ret => c.(esp := c.esp + 4, target := Address(Read(c.mem, c.esp)))
    case JmpTrampoline => c.(target := Trampoline)
  }

  function AsWord(cell: Cell): Word {
    match cell
    case Word(w) => w
    case Half(_, _) => 0
  }

  /** Argument in the x87 top, result in EDX:EAX; ECX saved on request. */
  function St0Shim(preserveEcx: bool): seq<Instr> {
    (if preserveEcx then [PushEcx] else [])
    + [SubEsp(8), FstpQword(0), CallInner(8), AddEsp(8)]
    + (if preserveEcx then [PopEcx] else [])
    + [Ret]
  }

  /** Base in ST(1), exponent in ST(0), result in ST(0). */
  const POW_SHIM: seq<Instr> := [SubEsp(16), Fxch, FstpQword(0), FstpQword(8), CallInner(16), AddEsp(16), Ret]

  /** Observe the caller's argument area, then continue in the original. */
  const TAP_SHIM: seq<Instr> :=
    [PushEcx, PushEdx, LeaEax(12), PushEax, CallInner(4), AddEsp(4), PopEdx, PopEcx, JmpTrampoline]

  function Double(v: real): seq<Cell> {
    [Half(v, false), Half(v, true)]
  }

  /** Everything from the entry stack pointer up is as the caller left it. */
  ghost predicate CallerMemoryIntact(before: Cpu, after: Cpu) {
    forall a :: a >= before.esp ==> Read(after.mem, a) == Read(before.mem, a)
  }

  /** The code runs through from `c` and ends in `d`. */
  ghost predicate RunsTo(c: Cpu, code: seq<Instr>, d: Cpu, inner: Inner)
    decreases code
  {
    if code == [] then c == d
    else CanStep(c, code[0]) && RunsTo(Step(c, code[0], inner), code[1..], d, inner)
  }

  /** A run has one outcome. */
  lemma {:induction false} OneOutcome(c: Cpu, code: seq<Instr>, d: Cpu, e: Cpu, inner: Inner)
    requires RunsTo(c, code, d, inner) && RunsTo(c, code, e, inner)
    ensures d == e
    decreases code
  {
    if code != [] {
      OneOutcome(Step(c, code[0], inner), code[1..], d, e, inner);
    }
  }

  lemma {:induction false} Then(c: Cpu, a: seq<Instr>, d: Cpu, b: seq<Instr>, e: Cpu, inner: Inner)
    requires RunsTo(c, a, d, inner) && RunsTo(d, b, e, inner)
    ensures RunsTo(c, a + b, e, inner)
    decreases a
  {
    if a == [] {
      assert a + b == b;
    } else {
      assert (a + b)[1..] == a[1..] + b;
      Then(Step(c, a[0], inner), a[1..], d, b, e, inner);
    }
  }

  lemma One(c: Cpu, i: Instr, inner: Inner)
    requires CanStep(c, i)
    ensures RunsTo(c, [i], Step(c, i, inner), inner)
  {
    assert [i][1..] == [];
  }

  lemma Two(c: Cpu, i: Instr, j: Instr, inner: Inner)
    requires CanStep(c, i) && CanStep(Step(c, i, inner), j)
    ensures RunsTo(c, [i, j], Step(Step(c, i, inner), j, inner), inner)
  {
    One(c, i, inner);
    One(Step(c, i, inner), j, inner);
    Then(c, [i], Step(c, i, inner), [j], Step(Step(c, i, inner), j, inner), inner);
    assert [i] + [j] == [i, j];
  }

  /** A double stored at `a`. */
  function Stored(mem: map<int, Cell>, a: int, v: real): map<int, Cell> {
    mem[a := Half(v, false)][a + 4 := Half(v, true)]
  }

  /** Call and caller clean-up. */
  function Called(c: Cpu, bytes: nat, args: seq<Cell>, inner: Inner): Cpu {
    Cpu(inner.eax(args), inner.ecx(args), inner.edx(args), c.esp + bytes,
        Kept(c.mem, c.esp + bytes, inner.scratch(args)), inner.returned(args) + c.fpu, c.calls + [args], c.target)
  }

  lemma CallAndClean(c: Cpu, bytes: nat, args: seq<Cell>, inner: Inner)
    requires args == Args(c.mem, c.esp, bytes)
    ensures RunsTo(c, [CallInner(bytes), AddEsp(bytes)], Called(c, bytes, args, inner), inner)
  {
    Two(c, CallInner(bytes), AddEsp(bytes), inner);
  }

  lemma ArgsOfDouble(mem: map<int, Cell>, esp: int, v: real)
    requires Read(mem, esp) == Half(v, false) && Read(mem, esp + 4) == Half(v, true)
    ensures Args(mem, esp, 8) == Double(v)
  {
    assert Args(mem, esp + 4, 4) == [Read(mem, esp + 4)] + Args(mem, esp + 8, 0);
  }

  lemma ArgsOfTwoDoubles(mem: map<int, Cell>, esp: int, v: real, w: real)
    requires Read(mem, esp) == Half(v, false) && Read(mem, esp + 4) == Half(v, true)
    requires Read(mem, esp + 8) == Half(w, false) && Read(mem, esp + 12) == Half(w, true)
    ensures Args(mem, esp, 16) == Double(v) + Double(w)
  {
    ArgsOfDouble(mem, esp + 8, w);
    assert Args(mem, esp + 4, 12) == [Read(mem, esp + 4)] + Args(mem, esp + 8, 8);
  }

  const ST0_CORE: seq<Instr> := [SubEsp(8), FstpQword(0)] + [CallInner(8), AddEsp(8)]

  /** The state after the spill, call and clean-up shared by both settings of the flag. */
  function St0Called(c: Cpu, inner: Inner): Cpu
    requires |c.fpu| >= 1
  {
    var spilled := c.(esp := c.esp - 8, mem := Stored(c.mem, c.esp - 8, c.fpu[0]), fpu := c.fpu[1..]);
    Called(spilled, 8, Double(c.fpu[0]), inner)
  }

  lemma St0Core(c: Cpu, inner: Inner)
    requires |c.fpu| >= 1
    ensures RunsTo(c, ST0_CORE, St0Called(c, inner), inner)
  {
    Two(c, SubEsp(8), FstpQword(0), inner);
    var spilled := c.(esp := c.esp - 8, mem := Stored(c.mem, c.esp - 8, c.fpu[0]), fpu := c.fpu[1..]);
    ArgsOfDouble(spilled.mem, spilled.esp, c.fpu[0]);
    CallAndClean(spilled, 8, Double(c.fpu[0]), inner);
    Then(c, [SubEsp(8), FstpQword(0)], spilled, [CallInner(8), AddEsp(8)], St0Called(c, inner), inner);
  }

  lemma St0Shapes()
    ensures St0Shim(false) == ST0_CORE + [Ret]
    ensures St0Shim(true) == [PushEcx] + ST0_CORE + [PopEcx, Ret]
  {
  }

  /** The final state, with or without ECX saved around the core. */
  function St0After(c: Cpu, preserveEcx: bool, inner: Inner): Cpu
    requires |c.fpu| >= 1
  {
    if preserveEcx then Step(Step(St0Called(Push(c, Word(c.ecx)), inner), PopEcx, inner), Ret, inner)
    else Step(St0Called(c, inner), Ret, inner)
  }

  lemma St0Leads(c: Cpu, preserveEcx: bool, inner: Inner)
    requires |c.fpu| >= 1
    ensures RunsTo(c, St0Shim(preserveEcx), St0After(c, preserveEcx, inner), inner)
  {
    St0Shapes();
    var last := St0After(c, preserveEcx, inner);
    if preserveEcx {
      var saved := Push(c, Word(c.ecx));
      var back := St0Called(saved, inner);
      One(c, PushEcx, inner);
      St0Core(saved, inner);
      Then(c, [PushEcx], saved, ST0_CORE, back, inner);
      Two(back, PopEcx, Ret, inner);
      Then(c, [PushEcx] + ST0_CORE, back, [PopEcx, Ret], last, inner);
    } else {
      St0Core(c, inner);
      One(St0Called(c, inner), Ret, inner);
      Then(c, ST0_CORE, St0Called(c, inner), [Ret], last, inner);
    }
  }

  lemma St0Facts(c: Cpu, preserveEcx: bool, inner: Inner)
    requires |c.fpu| >= 1 && inner.returned(Double(c.fpu[0])) == []
    ensures var after, args := St0After(c, preserveEcx, inner), Double(c.fpu[0]);
      && after == Cpu(inner.eax(args), if preserveEcx then c.ecx else inner.ecx(args), inner.edx(args), c.esp + 4,
                      after.mem, c.fpu[1..], c.calls + [args], Address(Read(c.mem, c.esp)))
      && CallerMemoryIntact(c, after)
  {
    assert [] + c.fpu[1..] == c.fpu[1..];
  }

  /**
   * The double-to-integer shim consumes ST(0), passes it as the one argument,
   * leaves the answer in EDX:EAX, keeps ECX when asked, and returns with the
   * stack balanced.
   */
  lemma St0ShimKeepsContract(c: Cpu, preserveEcx: bool, inner: Inner) returns (after: Cpu)
    requires |c.fpu| >= 1 && inner.returned(Double(c.fpu[0])) == []
    ensures RunsTo(c, St0Shim(preserveEcx), after, inner)
    ensures var args := Double(c.fpu[0]);
      && after.calls == c.calls + [args]
      && after.eax == inner.eax(args) && after.edx == inner.edx(args)
      && (preserveEcx ==> after.ecx == c.ecx)
      && after.fpu == c.fpu[1..]
      && after.esp == c.esp + 4 && after.target == Address(Read(c.mem, c.esp))
      && CallerMemoryIntact(c, after)
  {
    St0Leads(c, preserveEcx, inner);
    St0Facts(c, preserveEcx, inner);
    after := St0After(c, preserveEcx, inner);
  }

  const POW_SPILL: seq<Instr> := [SubEsp(16), Fxch] + [FstpQword(0), FstpQword(8)]

  function PowSpilled(c: Cpu): Cpu
    requires |c.fpu| >= 2
  {
    var esp := c.esp - 16;
    c.(esp := esp, mem := Stored(Stored(c.mem, esp, c.fpu[1]), esp + 8, c.fpu[0]), fpu := c.fpu[2..])
  }

  lemma PowSpill(c: Cpu, inner: Inner)
    requires |c.fpu| >= 2
    ensures RunsTo(c, POW_SPILL, PowSpilled(c), inner)
  {
    var swapped := c.(esp := c.esp - 16, fpu := [c.fpu[1], c.fpu[0]] + c.fpu[2..]);
    Two(c, SubEsp(16), Fxch, inner);
    Two(swapped, FstpQword(0), FstpQword(8), inner);
    assert swapped.fpu[1..][1..] == c.fpu[2..];
    Then(c, [SubEsp(16), Fxch], swapped, [FstpQword(0), FstpQword(8)], PowSpilled(c), inner);
  }

  function PowAfter(c: Cpu, inner: Inner): Cpu
    requires |c.fpu| >= 2
  {
    Step(Called(PowSpilled(c), 16, Double(c.fpu[1]) + Double(c.fpu[0]), inner), Ret, inner)
  }

  lemma PowShape()
    ensures POW_SHIM == POW_SPILL + [CallInner(16), AddEsp(16)] + [Ret]
  {
  }

  lemma PowLeads(c: Cpu, inner: Inner)
    requires |c.fpu| >= 2
    ensures RunsTo(c, POW_SHIM, PowAfter(c, inner), inner)
  {
    PowShape();
    PowSpill(c, inner);
    var spilled, args := PowSpilled(c), Double(c.fpu[1]) + Double(c.fpu[0]);
    ArgsOfTwoDoubles(spilled.mem, spilled.esp, c.fpu[1], c.fpu[0]);
    CallAndClean(spilled, 16, args, inner);
    var back := Called(spilled, 16, args, inner);
    Then(c, POW_SPILL, spilled, [CallInner(16), AddEsp(16)], back, inner);
    One(back, Ret, inner);
    Then(c, POW_SPILL + [CallInner(16), AddEsp(16)], back, [Ret], PowAfter(c, inner), inner);
  }

  lemma PowFacts(c: Cpu, inner: Inner)
    requires |c.fpu| >= 2
    ensures var after, args := PowAfter(c, inner), Double(c.fpu[1]) + Double(c.fpu[0]);
      && after == Cpu(inner.eax(args), inner.ecx(args), inner.edx(args), c.esp + 4,
                      after.mem, inner.returned(args) + c.fpu[2..], c.calls + [args], Address(Read(c.mem, c.esp)))
      && CallerMemoryIntact(c, after)
  {
  }

  /** The power shim consumes both operands, passes base then exponent, and leaves one result. */
  lemma PowShimKeepsContract(c: Cpu, inner: Inner) returns (after: Cpu)
    requires |c.fpu| >= 2 && |inner.returned(Double(c.fpu[1]) + Double(c.fpu[0]))| == 1
    ensures RunsTo(c, POW_SHIM, after, inner)
    ensures var args := Double(c.fpu[1]) + Double(c.fpu[0]);
      && after.calls == c.calls + [args]
      && after.fpu == inner.returned(args) + c.fpu[2..]
      && |after.fpu| == |c.fpu| - 1
      && after.esp == c.esp + 4 && after.target == Address(Read(c.mem, c.esp))
      && CallerMemoryIntact(c, after)
  {
    PowLeads(c, inner);
    PowFacts(c, inner);
    after := PowAfter(c, inner);
  }

  /** The state when the observer is called: two registers saved, its argument on top. */
  function TapEntered(c: Cpu): Cpu {
    Push(Push(Push(c, Word(c.ecx)), Word(c.edx)).(eax := c.esp + 4), Word(c.esp + 4))
  }

  lemma TapEntry(c: Cpu, inner: Inner)
    ensures RunsTo(c, [PushEcx, PushEdx] + [LeaEax(12), PushEax], TapEntered(c), inner)
    ensures Args(TapEntered(c).mem, TapEntered(c).esp, 4) == [Word(c.esp + 4)]
  {
    var saved := Push(Push(c, Word(c.ecx)), Word(c.edx));
    Two(c, PushEcx, PushEdx, inner);
    Two(saved, LeaEax(12), PushEax, inner);
    Then(c, [PushEcx, PushEdx], saved, [LeaEax(12), PushEax], TapEntered(c), inner);
    assert Args(TapEntered(c).mem, TapEntered(c).esp + 4, 0) == [];
  }

  function TapAfter(c: Cpu, inner: Inner): Cpu {
    var back := Called(TapEntered(c), 4, [Word(c.esp + 4)], inner);
    Step(Step(Step(back, PopEdx, inner), PopEcx, inner), JmpTrampoline, inner)
  }

  lemma TapShape()
    ensures TAP_SHIM ==
      [PushEcx, PushEdx] + [LeaEax(12), PushEax] + [CallInner(4), AddEsp(4)] + [PopEdx, PopEcx] + [JmpTrampoline]
  {
  }

  lemma TapLeads(c: Cpu, inner: Inner)
    ensures RunsTo(c, TAP_SHIM, TapAfter(c, inner), inner)
  {
    TapShape();
    TapEntry(c, inner);
    var enter := [PushEcx, PushEdx] + [LeaEax(12), PushEax];
    var pushed := TapEntered(c);
    var back := Called(pushed, 4, [Word(c.esp + 4)], inner);
    CallAndClean(pushed, 4, [Word(c.esp + 4)], inner);
    Then(c, enter, pushed, [CallInner(4), AddEsp(4)], back, inner);
    Two(back, PopEdx, PopEcx, inner);
    var popped := Step(Step(back, PopEdx, inner), PopEcx, inner);
    Then(c, enter + [CallInner(4), AddEsp(4)], back, [PopEdx, PopEcx], popped, inner);
    One(popped, JmpTrampoline, inner);
    Then(c, enter + [CallInner(4), AddEsp(4)] + [PopEdx, PopEcx], popped, [JmpTrampoline], TapAfter(c, inner), inner);
  }

  lemma TapFacts(c: Cpu, inner: Inner)
    requires inner.returned([Word(c.esp + 4)]) == []
    ensures var after := TapAfter(c, inner);
      && after == c.(eax := after.eax, mem := after.mem, calls := c.calls + [[Word(c.esp + 4)]], target := Trampoline)
      && CallerMemoryIntact(c, after)
  {
    assert [] + c.fpu == c.fpu;
    TapMemory(c, inner.scratch([Word(c.esp + 4)]));
  }

  /** What the observer cannot reach: the two saved registers and the caller's memory. */
  lemma TapMemory(c: Cpu, scratch: map<int, Cell>)
    ensures var mem := Kept(TapEntered(c).mem, c.esp - 8, scratch);
      && Read(mem, c.esp - 8) == Word(c.edx) && Read(mem, c.esp - 4) == Word(c.ecx)
      && forall a :: a >= c.esp ==> Read(mem, a) == Read(c.mem, a)
  {
  }

  /**
   * The tap hands its observer the address of the caller's first argument and
   * reaches the original with the stack, the x87 stack, ECX and EDX as they
   * arrived.
   */
  lemma TapIsTransparent(c: Cpu, inner: Inner) returns (after: Cpu)
    requires inner.returned([Word(c.esp + 4)]) == []
    ensures RunsTo(c, TAP_SHIM, after, inner)
    ensures
      && after.calls == c.calls + [[Word(c.esp + 4)]]
      && after.target == Trampoline
      && after.esp == c.esp && after.ecx == c.ecx && after.edx == c.edx && after.fpu == c.fpu
      && CallerMemoryIntact(c, after)
  {
    TapLeads(c, inner);
    TapFacts(c, inner);
    after := TapAfter(c, inner);
  }
}
