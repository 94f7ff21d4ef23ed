/** The hook-table generator's named-convention thunks, and the register contract of the code it emits. */
module Thunks {

  datatype Reg = Eax | Ecx | Edx

  /** Caller-saved registers in capture order. */
  const VOL_ORDER: seq<Reg> := [Eax, Ecx, Edx]

  datatype Abi = Cdecl | Stdcall | Fastcall | Thiscall

  /** Registers a convention hands out to integer and pointer arguments, in order. */
  function Pool(abi: Abi): (pool: seq<Reg>)
    ensures |pool| <= 2
    ensures forall i, j :: 0 <= i < j < |pool| ==> pool[i] != pool[j]
  {
    match abi
    case Thiscall => [Ecx]
    case Fastcall => [Ecx, Edx]
    case _ => []
  }

  predicate IsFloat(ty: string) {
    ty == "f32" || ty == "f64"
  }

  /** A pointer or machine word: a type both conventions certainly pass in a register. */
  predicate RegSizedArg(ty: string) {
    !IsFloat(ty) && ((|ty| > 0 && ty[0] == '*') || ty == "u32" || ty == "i32" || ty == "usize" || ty == "isize")
  }

  // ---- The i386 conventions themselves -----------------------------------

  /** What a manifest type is to a calling convention, with its width in bytes. */
  datatype Scalar = Float(bytes: nat) | Integer(bytes: nat) | Unsettled

  /** Pointers are machine words. */
  function ScalarOf(ty: string): Scalar {
    if ty == "f32" then Float(4)
    else if ty == "f64" then Float(8)
    else if ty in ["u64", "i64"] then Integer(8)
    else if ty in ["u32", "i32", "usize", "isize"] || "*" <= ty then Integer(4)
    else if ty in ["u16", "i16"] then Integer(2)
    else if ty in ["u8", "i8", "bool"] then Integer(1)
    else Unsettled
  }

  /** How many arguments among the first `n` take a register; `uses` settles the types above it leaves open. */
  function Taken(args: seq<string>, uses: nat -> nat, n: nat): nat
    requires n <= |args|
  {
    if n == 0 then 0
    else
      Taken(args, uses, n - 1) +
      match ScalarOf(args[n - 1])
      case Float(_) => 0
      case Integer(bytes) => if bytes <= 4 then 1 else 0
      case Unsettled => uses(n - 1)
  }

  /** `reg` gets the argument before which `taken` others have taken a register. */
  predicate Hands(abi: Abi, taken: nat, reg: Reg) {
    match reg
    case Eax => false
    case Ecx => (abi == Fastcall || abi == Thiscall) && taken == 0
    case Edx => abi == Fastcall && taken == 1
  }

  /** Argument `i` really arrives in `reg` when unsettled types behave as `uses` says. */
  predicate ArrivesIn(abi: Abi, args: seq<string>, uses: nat -> nat, i: nat, reg: Reg) {
    && i < |args| && ScalarOf(args[i]).Integer? && ScalarOf(args[i]).bytes <= 4
    && Hands(abi, Taken(args, uses, i), reg)
  }

  // ---- What the generator makes of them ----------------------------------

  predicate AllObvious(args: seq<string>, n: nat)
    requires n <= |args|
  {
    forall k :: 0 <= k < n ==> IsFloat(args[k]) || RegSizedArg(args[k])
  }

  /** Register arguments among the first `n`. */
  function WordCount(args: seq<string>, n: nat): nat
    requires n <= |args|
  {
    if n == 0 then 0 else WordCount(args, n - 1) + if RegSizedArg(args[n - 1]) then 1 else 0
  }

  predicate Claimable(abi: Abi, args: seq<string>, i: nat, reg: Reg) {
    && i < |args| && AllObvious(args, i) && RegSizedArg(args[i])
    && WordCount(args, i) < |Pool(abi)| && Pool(abi)[WordCount(args, i)] == reg
  }

  lemma {:induction false} WordCountGrows(args: seq<string>, m: nat, n: nat)
    requires m <= n <= |args|
    ensures WordCount(args, m) <= WordCount(args, n)
  {
    if m < n {
      WordCountGrows(args, m, n - 1);
    }
  }

  /** Which argument each register carries: exactly those settled by recognised types alone. */
  method RegArgs(abi: Abi, args: seq<string>) returns (carried: map<Reg, nat>)
    ensures forall reg :: reg in carried ==> Claimable(abi, args, carried[reg], reg)
    ensures forall i: nat, reg :: Claimable(abi, args, i, reg) ==> reg in carried && carried[reg] == i
  {
    var pool := Pool(abi);
    var next := 0;
    carried := map[];
    for i := 0 to |args|
      invariant AllObvious(args, i) && next == WordCount(args, i) <= |pool|
      invariant forall reg :: reg in carried ==> carried[reg] < i && Claimable(abi, args, carried[reg], reg)
      invariant forall k, reg :: 0 <= k < i && Claimable(abi, args, k, reg) ==> reg in carried && carried[reg] == k
    {
      if IsFloat(args[i]) {
        continue;
      }
      if !RegSizedArg(args[i]) {
        break;
      }
      if next == |pool| {
        forall k | i <= k <= |args| ensures WordCount(args, k) >= |pool| {
          WordCountGrows(args, i, k);
        }
        break;
      }
      forall k, reg | 0 <= k < i && Claimable(abi, args, k, reg) ensures reg != pool[next] {
        WordCountGrows(args, k + 1, i);
      }
      carried := carried[pool[next] := i];
      next := next + 1;
    }
  }

  /** The generator recognises floats and integers of exactly one machine word. */
  lemma RecognisedTypes(ty: string)
    ensures IsFloat(ty) <==> ScalarOf(ty).Float?
    ensures RegSizedArg(ty) <==> ScalarOf(ty) == Integer(4)
  {
    if |ty| > 0 && ty[0] == '*' {
      assert ty[..1] == "*";
    }
  }

  lemma {:induction false} ObviousPrefix(args: seq<string>, uses: nat -> nat, n: nat)
    requires n <= |args| && AllObvious(args, n)
    ensures Taken(args, uses, n) == WordCount(args, n)
  {
    if n > 0 {
      RecognisedTypes(args[n - 1]);
      ObviousPrefix(args, uses, n - 1);
    }
  }

  lemma PoolHands(abi: Abi, taken: nat, reg: Reg)
    ensures Hands(abi, taken, reg) <==> taken < |Pool(abi)| && Pool(abi)[taken] == reg
  {
  }

  /** Floats and whole machine words only. */
  predicate Plain(args: seq<string>, n: nat)
    requires n <= |args|
  {
    forall k :: 0 <= k < n ==> ScalarOf(args[k]).Float? || ScalarOf(args[k]) == Integer(4)
  }

  /**
   * A register is claimed for an argument exactly when the convention really puts it there, the
   * argument is a machine word, and so is everything before it that is not a float.
   */
  lemma ClaimedIff(abi: Abi, args: seq<string>, uses: nat -> nat, i: nat, reg: Reg)
    ensures Claimable(abi, args, i, reg) <==>
            ArrivesIn(abi, args, uses, i, reg) && ScalarOf(args[i]) == Integer(4) && Plain(args, i)
  {
    if i < |args| {
      forall k | 0 <= k <= i
        ensures IsFloat(args[k]) <==> ScalarOf(args[k]).Float?
        ensures RegSizedArg(args[k]) <==> ScalarOf(args[k]) == Integer(4)
      {
        RecognisedTypes(args[k]);
      }
      assert AllObvious(args, i) <==> Plain(args, i);
      if AllObvious(args, i) {
        ObviousPrefix(args, uses, i);
        PoolHands(abi, WordCount(args, i), reg);
      }
    }
  }

  /** A claimed register really carries its argument, whatever unsettled types do. */
  lemma ClaimsAreReal(abi: Abi, args: seq<string>, uses: nat -> nat, i: nat, reg: Reg)
    requires Claimable(abi, args, i, reg)
    ensures ArrivesIn(abi, args, uses, i, reg)
  {
    ClaimedIff(abi, args, uses, i, reg);
  }

  /** Where a restored register's value comes from. */
  datatype Source = FromLocal | FromArg(index: nat)

  datatype Stmt =
    | Capture(regs: seq<Reg>)
    | Crumb
    | CallAdapter
    | Restore(sources: seq<(Reg, Source)>)
    | ReturnResult

  /** Registers the return value occupies. */
  function ReturnRegs(ret: string): set<Reg> {
    if ret == "void" || IsFloat(ret) then {}
    else if ret == "i64" || ret == "u64" then {Eax, Edx}
    else {Eax}
  }

  /** An answer of up to four bytes is in EAX, the high half of an eight-byte integer in EDX, a float in neither. */
  lemma ReturnConvention(ret: string)
    ensures Eax in ReturnRegs(ret) <==> ret !in ["void", "f32", "f64"]
    ensures Edx in ReturnRegs(ret) <==> ret in ["i64", "u64"]
    ensures Ecx !in ReturnRegs(ret)
  {
  }

  /** What the generator writes for one entry: the adapter itself, or a body around one call to it. */
  datatype Thunk =
    | Direct
    | Body(capture: seq<Reg>, crumb: bool, restore: seq<(Reg, Source)>)
  {
    /** The statements of the body in emitted order. */
    function Code(): seq<Stmt>
      requires Body?
    {
      (if capture == [] then [] else [Capture(capture)])
      + (if crumb then [Crumb] else [])
      + [CallAdapter]
      + (if restore == [] then [] else [Restore(restore)])
      + [ReturnResult]
    }
  }

  function SourceOf(carried: map<Reg, nat>, r: Reg): Source {
    if r in carried then FromArg(carried[r]) else FromLocal
  }

  /** Every preserved register is restored from its source, and captured first unless a parameter holds it. */
  ghost predicate Shields(body: Thunk, carried: map<Reg, nat>, preserve: set<Reg>) {
    && body.Body?
    && (forall s :: s in body.restore <==> s.0 in preserve && s.1 == SourceOf(carried, s.0))
    && (forall r :: r in body.capture <==> r in preserve && r !in carried)
  }

  ghost predicate CorrectScan(abi: Abi, args: seq<string>, carried: map<Reg, nat>) {
    && (forall reg :: reg in carried ==> Claimable(abi, args, carried[reg], reg))
    && (forall i: nat, reg :: Claimable(abi, args, i, reg) ==> reg in carried && carried[reg] == i)
  }

  lemma EveryVolatileListed(r: Reg)
    ensures r in VOL_ORDER
  {
    assert VOL_ORDER[0] == Eax && VOL_ORDER[1] == Ecx && VOL_ORDER[2] == Edx;
  }

  /** A register's place in capture order. */
  function Place(r: Reg): (place: nat)
    ensures place < |VOL_ORDER| && VOL_ORDER[place] == r
  {
    match r
    case Eax => 0
    case Ecx => 1
    case Edx => 2
  }

  /** The preserved registers, once each and in capture order. */
  method Saves(preserve: set<Reg>) returns (saves: seq<Reg>)
    ensures forall r :: r in saves <==> r in preserve
    ensures forall i, j :: 0 <= i < j < |saves| ==> Place(saves[i]) < Place(saves[j])
  {
    saves := [];
    for i := 0 to |VOL_ORDER|
      invariant forall r :: r in saves <==> r in preserve && r in VOL_ORDER[..i]
      invariant forall k :: 0 <= k < |saves| ==> Place(saves[k]) < i
      invariant forall j, k :: 0 <= j < k < |saves| ==> Place(saves[j]) < Place(saves[k])
    {
      if VOL_ORDER[i] in preserve {
        saves := saves + [VOL_ORDER[i]];
      }
    }
    forall r ensures r in saves <==> r in preserve {
      EveryVolatileListed(r);
      assert VOL_ORDER[..|VOL_ORDER|] == VOL_ORDER;
    }
  }

  method EmitThunk(abi: Abi, args: seq<string>, preserve: set<Reg>, crumbs: bool, interposed: bool)
    returns (thunk: Thunk, ghost carried: map<Reg, nat>)
    ensures thunk.Direct? <==> preserve == {} && !interposed
    ensures CorrectScan(abi, args, carried)
    ensures thunk.Body? ==> Shields(thunk, carried, preserve) && thunk.crumb == crumbs
  {
    var saves := Saves(preserve);
    var bring := RegArgs(abi, args);
    carried := bring;
    if saves == [] && !interposed {
      assert forall r :: r !in preserve;
      return Direct, carried;
    }
    var captured: seq<Reg> := [];
    var sources: seq<(Reg, Source)> := [];
    for i := 0 to |saves|
      invariant forall r :: r in captured <==> r in saves[..i] && r !in bring
      invariant forall s :: s in sources <==> s.0 in saves[..i] && s.1 == SourceOf(bring, s.0)
    {
      var r := saves[i];
      if r !in bring {
        captured := captured + [r];
      }
      sources := sources + [(r, SourceOf(bring, r))];
    }
    assert saves[..|saves|] == saves;
    assert saves != [] ==> saves[0] in preserve;
    thunk := Body(captured, crumbs, sources);
  }

  type Word = int

  /** Registers, the thunk's parameters and locals, calls and breadcrumbs so far, and the adapter's answer. */
  datatype Machine = Machine(regs: map<Reg, Word>, params: seq<Word>, locals: map<Reg, Word>,
                             called: seq<seq<Word>>, crumbs: nat, result: (Word, Word))

  /** An adapter: its answer (low and high word) and what it leaves in the volatiles, free choices of its arguments. */
  datatype Adapter = Adapter(answer: seq<Word> -> (Word, Word), leaves: seq<Word> -> map<Reg, Word>)

  function RegOf(regs: map<Reg, Word>, r: Reg): Word {
    if r in regs then regs[r] else 0
  }

  function Exec(m: Machine, stmt: Stmt, adapter: Adapter, ret: string): Machine {
    match stmt
    case Capture(rs) => m.(locals := map r | r in m.locals.Keys + (set r | r in rs) ::
        if r in rs then RegOf(m.regs, r) else m.locals[r])
    case Crumb => m.(regs := adapter.leaves([]), crumbs := m.crumbs + 1)
    case CallAdapter =>
      m.(regs := adapter.leaves(m.params), called := m.called + [m.params], result := adapter.answer(m.params))
    case Restore(sources) => m.(regs := Restored(m, sources))
    case ReturnResult =>
      var rets := ReturnRegs(ret);
      m.(regs := m.regs + map r | r in rets :: if r == Edx then m.result.1 else m.result.0)
  }

  function ValueOf(m: Machine, r: Reg, source: Source): Word {
    match source
    case FromLocal => RegOf(m.locals, r)
    case FromArg(i) => if i < |m.params| then m.params[i] else 0
  }

  function Restored(m: Machine, sources: seq<(Reg, Source)>): map<Reg, Word> {
    if sources == [] then m.regs
    else
      var (r, source) := sources[|sources| - 1];
      Restored(m, sources[..|sources| - 1])[r := ValueOf(m, r, source)]
  }

  function Run(m: Machine, code: seq<Stmt>, adapter: Adapter, ret: string): Machine
    decreases code
  {
    if code == [] then m else Run(Exec(m, code[0], adapter, ret), code[1..], adapter, ret)
  }

  lemma {:induction false} RestoredValue(m: Machine, sources: seq<(Reg, Source)>, source: Reg -> Source, r: Reg)
    requires forall s :: s in sources ==> s.1 == source(s.0)
    ensures RegOf(Restored(m, sources), r)
      == if exists s :: s in sources && s.0 == r then ValueOf(m, r, source(r)) else RegOf(m.regs, r)
  {
    if sources != [] {
      var front, last := sources[..|sources| - 1], sources[|sources| - 1];
      RestoredValue(m, front, source, r);
      assert forall s :: s in sources <==> s in front || s == last;
    }
  }

  /** The state in which an entry is reached: parameters sit where the convention really puts them. */
  ghost predicate Entered(m: Machine, abi: Abi, args: seq<string>, uses: nat -> nat) {
    && |m.params| == |args| && m.locals == map[] && m.called == []
    && forall i: nat, reg :: ArrivesIn(abi, args, uses, i, reg) ==> RegOf(m.regs, reg) == m.params[i]
  }

  lemma RunInOrder(m: Machine, body: Thunk, adapter: Adapter, ret: string)
    requires body.Body?
    ensures Run(m, body.Code(), adapter, ret) ==
      var called := CalledFrom(m, body, adapter, ret);
      var restored := if body.restore == [] then called else Exec(called, Restore(body.restore), adapter, ret);
      Exec(restored, ReturnResult, adapter, ret)
  {
    var capture: seq<Stmt> := if body.capture == [] then [] else [Capture(body.capture)];
    var crumb: seq<Stmt> := if body.crumb then [Crumb] else [];
    var restore: seq<Stmt> := if body.restore == [] then [] else [Restore(body.restore)];
    RunConcat(m, capture + crumb + [CallAdapter] + restore, [ReturnResult], adapter, ret);
    RunConcat(m, capture + crumb + [CallAdapter], restore, adapter, ret);
    RunConcat(m, capture + crumb, [CallAdapter], adapter, ret);
    RunConcat(m, capture, crumb, adapter, ret);
    forall x, stmt ensures Run(x, [stmt], adapter, ret) == Exec(x, stmt, adapter, ret) {
      RunOne(x, stmt, adapter, ret);
    }
  }

  lemma RunOne(m: Machine, stmt: Stmt, adapter: Adapter, ret: string)
    ensures Run(m, [stmt], adapter, ret) == Exec(m, stmt, adapter, ret)
  {
    assert Run(m, [stmt], adapter, ret) == Run(Exec(m, stmt, adapter, ret), [stmt][1..], adapter, ret);
  }

  lemma {:induction false} RunConcat(m: Machine, a: seq<Stmt>, b: seq<Stmt>, adapter: Adapter, ret: string)
    ensures Run(m, a + b, adapter, ret) == Run(Run(m, a, adapter, ret), b, adapter, ret)
    decreases a
  {
    if a == [] {
      assert a + b == b;
    } else {
      assert (a + b)[1..] == a[1..] + b;
      RunConcat(Exec(m, a[0], adapter, ret), a[1..], b, adapter, ret);
    }
  }

  /**
   * The register contract, for every adapter and however unrecognised types are
   * passed: one call with the entry's own arguments, its answer in the return
   * registers, and every preserved register that does not carry the answer
   * back at its incoming value.
   */
  lemma ThunkKeepsContract(abi: Abi, args: seq<string>, ret: string, preserve: set<Reg>, carried: map<Reg, nat>,
                           body: Thunk, m: Machine, adapter: Adapter, uses: nat -> nat)
    requires CorrectScan(abi, args, carried) && Shields(body, carried, preserve) && Entered(m, abi, args, uses)
    ensures var after := Run(m, body.Code(), adapter, ret);
      && after.called == [m.params] && after.crumbs == m.crumbs + (if body.crumb then 1 else 0)
      && (ret !in ["void", "f32", "f64"] ==> RegOf(after.regs, Eax) == adapter.answer(m.params).0)
      && (ret in ["i64", "u64"] ==> RegOf(after.regs, Edx) == adapter.answer(m.params).1)
      && (forall r :: r in preserve && r !in ReturnRegs(ret) ==> RegOf(after.regs, r) == RegOf(m.regs, r))
  {
    RunInOrder(m, body, adapter, ret);
    ReturnConvention(ret);
    var called := CalledFrom(m, body, adapter, ret);
    CallKeepsLocals(m, body, adapter, ret);
    forall r | r in preserve ensures RegOf(Restored(called, body.restore), r) == RegOf(m.regs, r) {
      RestoreBringsBack(abi, args, preserve, carried, body, m, called, uses, r);
    }
  }

  /** The machine just after the adapter has returned. */
  function CalledFrom(m: Machine, body: Thunk, adapter: Adapter, ret: string): Machine
    requires body.Body?
  {
    var captured := if body.capture == [] then m else Exec(m, Capture(body.capture), adapter, ret);
    var noted := if body.crumb then Exec(captured, Crumb, adapter, ret) else captured;
    Exec(noted, CallAdapter, adapter, ret)
  }

  /** The call gets the parameters, and what was captured before it is still in the locals. */
  lemma CallKeepsLocals(m: Machine, body: Thunk, adapter: Adapter, ret: string)
    requires body.Body?
    ensures var called := CalledFrom(m, body, adapter, ret);
      && called.params == m.params && called.called == m.called + [m.params]
      && called.result == adapter.answer(m.params)
      && forall q :: q in body.capture ==> RegOf(called.locals, q) == RegOf(m.regs, q)
  {
  }

  /** After the call, the restore puts every preserved register's incoming value back. */
  lemma RestoreBringsBack(abi: Abi, args: seq<string>, preserve: set<Reg>, carried: map<Reg, nat>,
                          body: Thunk, m: Machine, late: Machine, uses: nat -> nat, r: Reg)
    requires CorrectScan(abi, args, carried) && Shields(body, carried, preserve) && Entered(m, abi, args, uses)
    requires late.params == m.params && forall q :: q in body.capture ==> RegOf(late.locals, q) == RegOf(m.regs, q)
    requires r in preserve
    ensures RegOf(Restored(late, body.restore), r) == RegOf(m.regs, r)
  {
    RestoredValue(late, body.restore, x => SourceOf(carried, x), r);
    assert (r, SourceOf(carried, r)) in body.restore;
    if r in carried {
      ClaimsAreReal(abi, args, uses, carried[r], r);
    } else {
      assert r in body.capture;
    }
  }

  /** The exclusion is needed: a preserved register that carries the answer loses its incoming value. */
  lemma ReturnRegisterCannotBePreserved(abi: Abi, args: seq<string>, ret: string, preserve: set<Reg>,
                                        carried: map<Reg, nat>, body: Thunk, m: Machine, uses: nat -> nat, r: Reg)
    returns (adapter: Adapter)
    requires CorrectScan(abi, args, carried) && Shields(body, carried, preserve) && Entered(m, abi, args, uses)
    requires r in preserve && r in ReturnRegs(ret)
    ensures RegOf(Run(m, body.Code(), adapter, ret).regs, r) != RegOf(m.regs, r)
  {
    var other := RegOf(m.regs, r) + 1;
    adapter := Adapter(a => (other, other), a => map[]);
    ThunkKeepsContract(abi, args, ret, preserve, carried, body, m, adapter, uses);
  }
}
