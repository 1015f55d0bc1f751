/** The assembly-emitting code generator (code.go) and the label stack of
    plzero.go:149-159. The generator state is the register-stack depth `reg`,
    the last label number issued `labelid`, the stack of pending labels and
    the instructions emitted so far. */
module AsmGen {
  import opened Outcomes
  import opened X86
  import opened Scopes

  /** `reg` counts the live registers of the pool: 0 to 7. */
  type Depth = d: nat | d <= PoolSize

  datatype Gen = Gen(reg: Depth, labelid: int, labels: seq<int>, code: seq<Instr>)

  /** The code of `g'` continues the code of `g`: generation only appends. */
  predicate Extends(g: Gen, g': Gen) {
    |g'.code| > |g.code| && g'.code[..|g.code|] == g.code
  }

  /** Generation only appends, possibly nothing. */
  predicate Continues(g: Gen, g': Gen) {
    |g'.code| >= |g.code| && g'.code[..|g.code|] == g.code
  }

  lemma ContinuesTrans(a: Gen, b: Gen, c: Gen)
    requires Continues(a, b) && Continues(b, c)
    ensures Continues(a, c)
    ensures |c.code| > |a.code| <==> |c.code| > |b.code| || |b.code| > |a.code|
  {
    assert c.code[..|a.code|] == c.code[..|b.code|][..|a.code|];
  }

  lemma ContinuesAt(g: Gen, g': Gen, i: nat)
    requires Continues(g, g') && i < |g.code|
    ensures g'.code[i] == g.code[i]
  {
    assert g'.code[..|g.code|][i] == g'.code[i];
  }

  /** `regs[reg]` with `reg == 7` is a Go index panic; the model reports it. */
  const PoolExhausted: string := "index out of range"

  function Emit(g: Gen, instrs: seq<Instr>): (g': Gen)
    ensures g'.code == g.code + instrs
    ensures g'.reg == g.reg && g'.labelid == g.labelid && g'.labels == g.labels
  {
    g.(code := g.code + instrs)
  }

  /** Every pending label was issued already, and the pending labels were
      issued in increasing order from bottom to top. */
  ghost predicate LabelsOrdered(g: Gen) {
    && (forall i :: 0 <= i < |g.labels| ==> g.labels[i] <= g.labelid)
    && (forall i, j :: 0 <= i < j < |g.labels| ==> g.labels[i] < g.labels[j])
  }

  /** `addLabel`: issues a new label number and pushes it. */
  function AddLabel(g: Gen): (g': Gen)
    ensures g'.labelid == g.labelid + 1
    ensures g'.labels == g.labels + [g'.labelid]
    ensures g'.reg == g.reg && g'.code == g.code
    ensures forall i :: 0 <= i < |g.labels| && g.labels[i] <= g.labelid ==> g.labels[i] < g'.labelid
    ensures LabelsOrdered(g) ==> LabelsOrdered(g')
  {
    g.(labelid := g.labelid + 1, labels := g.labels + [g.labelid + 1])
  }

  /** `getLabel`: pops the most recently pushed label. The Go code indexes
      `labels[len-1]`, so the stack must not be empty. */
  function GetLabel(g: Gen): (r: (Gen, int))
    requires |g.labels| > 0
    ensures r.1 == g.labels[|g.labels| - 1]
    ensures r.0.labels + [r.1] == g.labels
    ensures r.0.reg == g.reg && r.0.labelid == g.labelid && r.0.code == g.code
    ensures LabelsOrdered(g) ==> LabelsOrdered(r.0)
  {
    var last := |g.labels| - 1;
    (g.(labels := g.labels[..last]), g.labels[last])
  }

  /** `genImm`: loads an immediate into the next free register. */
  function GenImm(g: Gen, val: int): (r: Result<Gen, string>)
    ensures r.Err? <==> g.reg >= PoolSize
    ensures r.Err? ==> r.error == PoolExhausted
    ensures r.Ok? ==> r.value.reg == g.reg + 1 && r.value.labels == g.labels
                      && r.value.labelid == g.labelid && Extends(g, r.value)
  {
    if g.reg >= PoolSize then Err(PoolExhausted)
    else Ok(Emit(g, [MovImm(g.reg, val)]).(reg := g.reg + 1))
  }

  /** `genIdent`: a constant becomes an immediate; a variable is loaded by
      name when it is global, from its frame offset when it is local. A name
      found nowhere reads as Go's zero symbol, a global variable. */
  function GenIdent(g: Gen, env: Env, name: string): (r: Result<Gen, string>)
    ensures r.Err? <==> g.reg >= PoolSize
    ensures r.Err? ==> r.error == PoolExhausted
    ensures r.Ok? ==> r.value.reg == g.reg + 1 && r.value.labels == g.labels
                      && r.value.labelid == g.labelid && Extends(g, r.value)
  {
    var local := Lookup(env, env.active, name);
    var glob := env.active == Global || local.None?;
    var sym := if local.Some? then local.value
               else match Lookup(env, Global, name)
                    case Some(s) => s
                    case None => Symbol(Var, 0, 0);
    if sym.kind == Const then GenImm(g, sym.val)
    else if g.reg >= PoolSize then Err(PoolExhausted)
    else if glob then Ok(Emit(g, [LoadGlobal(g.reg, name)]).(reg := g.reg + 1))
    else Ok(Emit(g, [LoadLocal(g.reg, sym.addr)]).(reg := g.reg + 1))
  }

  /** `genMul`: the old top is multiplied into the new top. */
  function GenMul(g: Gen): (g': Gen)
    requires g.reg >= 2
    ensures g'.reg == g.reg - 1 && g'.labels == g.labels && g'.labelid == g.labelid
    ensures Extends(g, g')
  {
    Emit(g, [Imul(g.reg - 2, g.reg - 1)]).(reg := g.reg - 1)
  }

  /** `genAddSub`: `-` subtracts the old top from the new top; any other
      operator adds. */
  function GenAddSub(g: Gen, op: string): (g': Gen)
    requires g.reg >= 2
    ensures g'.reg == g.reg - 1 && g'.labels == g.labels && g'.labelid == g.labelid
    ensures Extends(g, g')
  {
    var a, b := g.reg - 2, g.reg - 1;
    Emit(g, [if op == "-" then Sub(a, b) else Add(a, b)]).(reg := g.reg - 1)
  }

  /** `genNeg`: negates the top in place. */
  function GenNeg(g: Gen): (g': Gen)
    requires g.reg >= 1
    ensures g'.reg == g.reg && g'.labels == g.labels && g'.labelid == g.labelid
    ensures Extends(g, g')
  {
    Emit(g, [Neg(g.reg - 1)])
  }

  /** `push regs[0]` ... `push regs[n-1]`. */
  function Pushes(n: nat): (code: seq<Instr>)
    requires n <= PoolSize
    ensures |code| == n && forall i :: 0 <= i < n ==> code[i] == Push(i)
  {
    seq(n, i requires 0 <= i < n => Push(i))
  }

  /** `pop regs[k-1]` ... `pop regs[0]`. */
  function PopsDown(k: nat): (code: seq<Instr>)
    requires k <= PoolSize
    ensures |code| == k && forall i :: 0 <= i < k ==> code[i] == Pop(k - 1 - i)
  {
    seq(k, i requires 0 <= i < k => Pop(k - 1 - i))
  }

  /** The division sequence of `genDiv`, parameterised by the instruction that
      prepares `edx` before `idiv ebx`. With more than two live values, all of
      them are spilled, the divisor is popped into `ebx` and the dividend into
      `eax`, and after the division the quotient and the survivors are popped
      back into `regs[reg-2]` ... `regs[0]`. */
  function DivCode(n: nat, extend: Instr): seq<Instr>
    requires 2 <= n <= PoolSize
  {
    if n > 2 then Pushes(n) + [Pop(Ebx), Pop(Eax), extend, Idiv(Ebx), Push(Eax)] + PopsDown(n - 1)
    else [extend, Idiv(Ebx)]
  }

  /** The compiler as the repository has it, or with two corrections:
      `genDiv` puts `cdq` before `idiv` instead of `xor edx, edx`, and a
      block restores the scope that was active when it was entered instead
      of setting `active = ""`. */
  datatype Variant = AsWritten | Corrected

  /** The instruction `genDiv` puts before `idiv ebx`. code.go:45 clears
      `edx`, so the dividend is the unsigned reading of `eax`; the corrected
      compiler sign-extends `eax` into `edx` (`cdq`). */
  function Extension(v: Variant): Instr {
    match v
    case AsWritten => ZeroEdx
    case Corrected => Cdq
  }

  /** `genDiv`: divides `regs[reg-2]` by `regs[reg-1]` in `eax`/`ebx`,
      spilling and restoring the other live values when there are any. */
  function GenDiv(v: Variant, g: Gen): (g': Gen)
    requires 2 <= g.reg <= PoolSize
    ensures g'.reg == g.reg - 1 && g'.labels == g.labels && g'.labelid == g.labelid
    ensures Extends(g, g')
  {
    Emit(g, DivCode(g.reg, Extension(v))).(reg := g.reg - 1)
  }

  /** `genOdd`: consumes the top and jumps to the current label when its low
      bit is zero. */
  function GenOdd(g: Gen): (g': Gen)
    requires g.reg >= 1
    ensures g'.reg == g.reg - 1 && g'.labels == g.labels && g'.labelid == g.labelid
    ensures Extends(g, g')
    ensures g'.code[|g'.code| - 1] == Jcc(Z, g.labelid)
  {
    Emit(g, [TestOne(g.reg - 1), Jcc(Z, g.labelid)]).(reg := g.reg - 1)
  }

  /** The jump `genCond` emits for a comparison operator: the inverse of the
      comparison, taken when the condition is false. */
  function InverseJump(cond: string): Option<Cc> {
    match cond
    case "=" => Some(NE)
    case "#" => Some(E)
    case "<" => Some(GE)
    case "<=" => Some(G)
    case ">" => Some(LE)
    case ">=" => Some(L)
    case _ => None
  }

  /** `genCond`: compares the two top registers, consumes both and jumps to
      the current label on the inverse condition. */
  function GenCond(g: Gen, cond: string): (r: Result<Gen, string>)
    requires g.reg >= 2
    ensures r.Err? <==> cond !in {"=", "#", "<", "<=", ">", ">="}
    ensures r.Err? ==> r.error == "comparison operator expected"
    ensures r.Ok? ==> r.value.reg == g.reg - 2 && r.value.labels == g.labels
                      && r.value.labelid == g.labelid
                      && Extends(g, r.value)
                      && r.value.code[|r.value.code| - 1].Jcc?
                      && r.value.code[|r.value.code| - 1].target == g.labelid
  {
    match InverseJump(cond)
    case None => Err("comparison operator expected")
    case Some(cc) =>
      Ok(Emit(g, [Cmp(g.reg - 2, g.reg - 1), Jcc(cc, g.labelid)]).(reg := g.reg - 2))
  }

  /** `genAssign`: consumes the top and stores it by name for a global, at
      the frame offset for a local of the active scope. */
  function GenAssign(g: Gen, env: Env, name: string): (g': Gen)
    requires g.reg >= 1
    ensures g'.reg == g.reg - 1 && g'.labels == g.labels && g'.labelid == g.labelid
    ensures Extends(g, g')
  {
    var local := Lookup(env, env.active, name);
    var glob := env.active == Global || local.None?;
    if glob then Emit(g, [StoreGlobal(name, g.reg - 1)]).(reg := g.reg - 1)
    else Emit(g, [StoreLocal(local.value.addr, g.reg - 1)]).(reg := g.reg - 1)
  }

  /** `genCall`. */
  function GenCall(g: Gen, name: string): (g': Gen)
    ensures g'.reg == g.reg && g'.labels == g.labels && g'.labelid == g.labelid
    ensures g'.code == g.code + [Call(name)]
  {
    Emit(g, [Call(name)])
  }

  /** `genLabel`: places the most recently pushed pending label. */
  function GenLabel(g: Gen): (g': Gen)
    requires |g.labels| > 0
    ensures g'.reg == g.reg && g'.labelid == g.labelid
    ensures g'.labels == g.labels[..|g.labels| - 1]
    ensures g'.code == g.code + [Label(g.labels[|g.labels| - 1])]
    ensures LabelsOrdered(g) ==> LabelsOrdered(g')
  {
    var (g1, id) := GetLabel(g);
    Emit(g1, [Label(id)])
  }

  /** `genJmp`: jumps back to a loop start. */
  function GenJmp(g: Gen, loop: int): (g': Gen)
    ensures g'.reg == g.reg && g'.labels == g.labels && g'.labelid == g.labelid
    ensures g'.code == g.code + [Jmp(loop)]
  {
    Emit(g, [Jmp(loop)])
  }

  /** Frame size of a procedure: `scopes[name].nlocal * 4`. */
  function FrameBytes(env: Env, name: string): int {
    if name in env.scopes then env.scopes[name].nlocal * 4 else 0
  }

  /** `genProc`: the head reserves the frame, the end releases the same
      number of bytes and returns. */
  function GenProc(g: Gen, env: Env, name: string, head: bool): (g': Gen)
    ensures g'.reg == g.reg && g'.labels == g.labels && g'.labelid == g.labelid
    ensures head ==> g'.code == g.code + [Entry(name), SubEsp(FrameBytes(env, name))]
    ensures !head ==> g'.code == g.code + [AddEsp(FrameBytes(env, name)), Ret]
  {
    if head then Emit(g, [Entry(name), SubEsp(FrameBytes(env, name))])
    else Emit(g, [AddEsp(FrameBytes(env, name)), Ret])
  }
}

/** What the emitted instructions do on the abstract machine: each generator
    is a step of a stack machine whose stack is `regs[0..reg-1]`. */
module AsmGenFacts {
  import opened Outcomes
  import opened X86
  import opened Scopes
  import opened AsmGen

  /** The first `|vals|` registers hold the value stack `vals`. */
  ghost predicate Holds(m: Machine, vals: seq<Word>) {
    Valid(m) && |vals| <= PoolSize && m.regs[..|vals|] == vals
  }

  /** The instructions `g'` appended to `g`. */
  function Emitted(g: Gen, g': Gen): seq<Instr>
    requires Continues(g, g')
  {
    g'.code[|g.code|..]
  }

  lemma ExecOne(i: Instr, m: Machine)
    requires Valid(m) && StraightLine(i)
    ensures AllStraightLine([i])
    ensures Exec([i], m) == Step(i, m)
  {
    assert [i][1..] == [];
  }

  lemma ExecCons(i: Instr, rest: seq<Instr>, m: Machine)
    requires Valid(m) && StraightLine(i) && AllStraightLine(rest)
    ensures AllStraightLine([i] + rest)
    ensures Exec([i] + rest, m) == (match Step(i, m) case Some(m1) => Exec(rest, m1) case None => None)
  {
    assert ([i] + rest)[0] == i;
    assert ([i] + rest)[1..] == rest;
    assert AllStraightLine([i] + rest) by {
      forall k | 0 <= k < |[i] + rest| ensures StraightLine(([i] + rest)[k]) {
        if k > 0 { assert ([i] + rest)[k] == rest[k - 1]; }
      }
    }
  }

  lemma StepPop(r: RegId, m: Machine)
    requires Valid(m) && |m.stack| > 0
    ensures Step(Pop(r), m)
            == Some(m.(regs := m.regs[r := m.stack[|m.stack| - 1]], stack := m.stack[..|m.stack| - 1]))
  {
  }

  /** Spilling: `push regs[0]` ... `push regs[n-1]` puts the live values on
      the native stack in depth order. */
  lemma {:induction false} ExecPushes(n: nat, m: Machine)
    requires Valid(m) && n <= PoolSize
    ensures AllStraightLine(Pushes(n))
    ensures Exec(Pushes(n), m) == Some(m.(stack := m.stack + m.regs[..n]))
  {
    if n == 0 {
      assert m.stack + m.regs[..0] == m.stack;
    } else {
      assert Pushes(n) == Pushes(n - 1) + [Push(n - 1)];
      ExecPushes(n - 1, m);
      var m1 := m.(stack := m.stack + m.regs[..n - 1]);
      ExecOne(Push(n - 1), m1);
      ExecAppend(Pushes(n - 1), [Push(n - 1)], m);
      assert m.stack + m.regs[..n - 1] + [m.regs[n - 1]] == m.stack + m.regs[..n];
    }
  }

  lemma Splice(vs: seq<Word>, regs: seq<Word>, k: nat)
    requires 0 < k == |vs| <= |regs|
    ensures vs[..k - 1] + regs[k - 1 := vs[k - 1]][k - 1..] == vs + regs[k..]
  {
    var lhs := vs[..k - 1] + regs[k - 1 := vs[k - 1]][k - 1..];
    var rhs := vs + regs[k..];
    assert |lhs| == |rhs|;
    forall i | 0 <= i < |lhs| ensures lhs[i] == rhs[i] {
      if i < k - 1 {
      } else if i == k - 1 {
      } else {
      }
    }
  }

  /** Restoring: `pop regs[k-1]` ... `pop regs[0]` takes the top `k` words
      back into the registers, the topmost into `regs[k-1]`. */
  lemma {:induction false} ExecPopsDown(k: nat, m: Machine, below: seq<Word>, vs: seq<Word>)
    requires Valid(m) && k <= PoolSize && |vs| == k && m.stack == below + vs
    ensures AllStraightLine(PopsDown(k))
    ensures Exec(PopsDown(k), m) == Some(Machine(vs + m.regs[k..], below, m.globals, m.flags))
  {
    if k == 0 {
      assert vs + m.regs[0..] == m.regs;
      assert below + vs == below;
    } else {
      assert PopsDown(k) == [Pop(k - 1)] + PopsDown(k - 1);
      var m1 := Machine(m.regs[k - 1 := vs[k - 1]], below + vs[..k - 1], m.globals, m.flags);
      assert m.stack[|m.stack| - 1] == vs[k - 1];
      assert m.stack[..|m.stack| - 1] == below + vs[..k - 1];
      StepPop(k - 1, m);
      assert Step(Pop(k - 1), m) == Some(m1);
      ExecPopsDown(k - 1, m1, below, vs[..k - 1]);
      ExecCons(Pop(k - 1), PopsDown(k - 1), m);
      Splice(vs, m.regs, k);
    }
  }

  /** The value `edx:eax` holds after `Extension(v)`: `eax` itself after
      `cdq`, its unsigned reading after `xor edx, edx`. */
  function Dividend(v: Variant, a: Word): int {
    match v
    case AsWritten => Unsigned(a)
    case Corrected => a
  }

  /** The quotient `idiv ebx` leaves in `eax` after `Extension(v)`, or
      `None` when the processor raises a divide error (zero divisor, or a
      quotient outside 32 bits). */
  function Divide(v: Variant, a: Word, b: Word): Option<Word> {
    if b == 0 then None
    else
      var q := TruncDiv(Dividend(v, a), b);
      if -0x8000_0000 <= q < 0x8000_0000 then Some(q) else None
  }

  /** What `Extension(v)` puts in `edx`, followed by `eax`, is `Dividend`. */
  lemma ExtendedDividend(v: Variant, m: Machine)
    requires Valid(m)
    ensures Step(Extension(v), m).Some?
    ensures var m1 := Step(Extension(v), m).value;
      && m1 == m.(regs := m.regs[Edx := m1.regs[Edx]])
      && m1.regs[Edx] * Two32 + Unsigned(m.regs[Eax]) == Dividend(v, m.regs[Eax])
  {
  }

  /** The core of `genDiv` on `eax`/`ebx`: the extension and `idiv ebx`
      leave the quotient in `eax` and touch only `eax` and `edx`. */
  lemma ExecDivide(v: Variant, m: Machine)
    requires Valid(m)
    ensures AllStraightLine([Extension(v), Idiv(Ebx)])
    ensures Divide(v, m.regs[Eax], m.regs[Ebx]).None? ==> Exec([Extension(v), Idiv(Ebx)], m).None?
    ensures Divide(v, m.regs[Eax], m.regs[Ebx]).Some? ==>
      && Exec([Extension(v), Idiv(Ebx)], m).Some?
      && var m' := Exec([Extension(v), Idiv(Ebx)], m).value;
      && m'.regs[Eax] == Divide(v, m.regs[Eax], m.regs[Ebx]).value
      && (forall r :: 0 <= r < PoolSize && r != Eax && r != Edx ==> m'.regs[r] == m.regs[r])
      && m'.stack == m.stack && m'.globals == m.globals && m'.flags == m.flags
  {
    ExtendedDividend(v, m);
    var m1 := Step(Extension(v), m).value;
    ExecCons(Extension(v), [Idiv(Ebx)], m);
    ExecOne(Idiv(Ebx), m1);
    assert [Extension(v)] + [Idiv(Ebx)] == [Extension(v), Idiv(Ebx)];
  }

  /** The middle of the spilled division: the divisor is popped into `ebx`,
      the dividend into `eax`, and the quotient is pushed in their place. */
  lemma ExecSpilledDivide(v: Variant, m: Machine, below: seq<Word>, a: Word, b: Word)
    requires Valid(m) && m.stack == below + [a, b]
    ensures AllStraightLine(SpilledDivide(v))
    ensures Divide(v, a, b).None? ==> Exec(SpilledDivide(v), m).None?
    ensures Divide(v, a, b).Some? ==>
      && Exec(SpilledDivide(v), m).Some?
      && Exec(SpilledDivide(v), m).value.stack == below + [Divide(v, a, b).value]
      && Exec(SpilledDivide(v), m).value.globals == m.globals
  {
    var div := [Extension(v), Idiv(Ebx)];
    assert SpilledDivide(v) == SpilledPops() + div + [Push(Eax)];
    PopsOperands(m, below, a, b);
    var m3 := m.(regs := m.regs[Ebx := b][Eax := a], stack := below);
    ExecDivide(v, m3);
    ExecThen(SpilledPops(), div, m, m3);
    if Divide(v, a, b).Some? {
      PushesQuotient(v, SpilledPops() + div, m, m3);
    } else {
      ExecStops(SpilledPops() + div, [Push(Eax)], m);
    }
  }

  /** After the operands are popped into `m3` and divided, `push eax` puts
      the quotient where the operands were. */
  lemma PushesQuotient(v: Variant, div: seq<Instr>, m: Machine, m3: Machine)
    requires Valid(m) && Valid(m3) && Divide(v, m3.regs[Eax], m3.regs[Ebx]).Some?
    requires Exec(div, m) == Exec([Extension(v), Idiv(Ebx)], m3)
    ensures Exec(div + [Push(Eax)], m).Some?
    ensures Exec(div + [Push(Eax)], m).value.stack
            == m3.stack + [Divide(v, m3.regs[Eax], m3.regs[Ebx]).value]
    ensures Exec(div + [Push(Eax)], m).value.globals == m3.globals
  {
    ExecDivide(v, m3);
    var m4 := Exec([Extension(v), Idiv(Ebx)], m3).value;
    ExecThen(div, [Push(Eax)], m, m4);
    ExecOne(Push(Eax), m4);
  }

  function SpilledPops(): seq<Instr> {
    [Pop(Ebx), Pop(Eax)]
  }

  /** `pop ebx; pop eax` takes the divisor and then the dividend off the
      native stack. */
  lemma PopsOperands(m: Machine, below: seq<Word>, a: Word, b: Word)
    requires Valid(m) && m.stack == below + [a, b]
    ensures AllStraightLine(SpilledPops())
    ensures Exec(SpilledPops(), m) == Some(m.(regs := m.regs[Ebx := b][Eax := a], stack := below))
  {
    var m2 := m.(regs := m.regs[Ebx := b], stack := below + [a]);
    assert m.stack[..|m.stack| - 1] == below + [a];
    StepPop(Ebx, m);
    assert m2.stack[..|m2.stack| - 1] == below;
    StepPop(Eax, m2);
    ExecOne(Pop(Eax), m2);
    ExecCons(Pop(Ebx), [Pop(Eax)], m);
  }

  function SpilledDivide(v: Variant): seq<Instr> {
    [Pop(Ebx), Pop(Eax), Extension(v), Idiv(Ebx), Push(Eax)]
  }

  /** Two live values: they already sit in `eax` and `ebx`. */
  lemma DivideInPlace(v: Variant, m: Machine, vals: seq<Word>)
    requires |vals| == 2 && Holds(m, vals)
    ensures AllStraightLine(DivCode(2, Extension(v)))
    ensures var out := Exec(DivCode(2, Extension(v)), m);
      var q := Divide(v, vals[0], vals[1]);
      && (q.None? ==> out.None?)
      && (q.Some? ==> out.Some? && Holds(out.value, [q.value])
                      && out.value.stack == m.stack && out.value.globals == m.globals)
  {
    assert m.regs[Eax] == m.regs[..2][0] == vals[0];
    assert m.regs[Ebx] == m.regs[..2][1] == vals[1];
    ExecDivide(v, m);
    var q := Divide(v, vals[0], vals[1]);
    if q.Some? {
      var m' := Exec(DivCode(2, Extension(v)), m).value;
      assert m'.regs[..1] == [q.value];
    }
  }

  /** Spilling all `n` live values and dividing the two on top leaves the
      first `n-2` values and the quotient on the native stack. */
  lemma SpillAndDivide(v: Variant, m: Machine, vals: seq<Word>)
    requires 2 < |vals| && Holds(m, vals)
    ensures AllStraightLine(Pushes(|vals|) + SpilledDivide(v))
    ensures var n := |vals|;
      var out := Exec(Pushes(n) + SpilledDivide(v), m);
      var q := Divide(v, vals[n - 2], vals[n - 1]);
      && (q.None? ==> out.None?)
      && (q.Some? ==> out.Some? && out.value.stack == m.stack + (vals[..n - 2] + [q.value])
                      && out.value.globals == m.globals)
  {
    var n := |vals|;
    var a, b := vals[n - 2], vals[n - 1];
    var below := m.stack + vals[..n - 2];
    ExecPushes(n, m);
    var m1 := m.(stack := m.stack + vals);
    assert m.regs[..n] == vals;
    assert m1.stack == below + [a, b] by {
      assert vals == vals[..n - 2] + [a, b];
    }
    ExecSpilledDivide(v, m1, below, a, b);
    ExecAppend(Pushes(n), SpilledDivide(v), m);
  }

  /** More than two live values: all are spilled and restored around the
      division. */
  lemma DivideSpilled(v: Variant, m: Machine, vals: seq<Word>)
    requires 2 < |vals| && Holds(m, vals)
    ensures AllStraightLine(DivCode(|vals|, Extension(v)))
    ensures var n := |vals|;
      var out := Exec(DivCode(n, Extension(v)), m);
      var q := Divide(v, vals[n - 2], vals[n - 1]);
      && (q.None? ==> out.None?)
      && (q.Some? ==> out.Some? && Holds(out.value, vals[..n - 2] + [q.value])
                      && out.value.stack == m.stack && out.value.globals == m.globals)
  {
    var n := |vals|;
    var q := Divide(v, vals[n - 2], vals[n - 1]);
    SpillAndDivide(v, m, vals);
    ExecAppend(Pushes(n) + SpilledDivide(v), PopsDown(n - 1), m);
    assert DivCode(n, Extension(v)) == Pushes(n) + SpilledDivide(v) + PopsDown(n - 1);
    if q.Some? {
      var m5 := Exec(Pushes(n) + SpilledDivide(v), m).value;
      var rest := vals[..n - 2] + [q.value];
      ExecPopsDown(n - 1, m5, m.stack, rest);
      var out := Machine(rest + m5.regs[n - 1..], m.stack, m5.globals, m5.flags);
      assert out.regs[..n - 1] == rest;
    }
  }

  /** `genDiv`, in either variant: with `n` live values the emitted code
      divides `regs[n-2]` by `regs[n-1]`; afterwards `regs[0..n-3]` hold
      their previous values, `regs[n-2]` the quotient, and the native stack
      is as before (every spilled word was popped again). A divide error is
      a fault. */
  lemma GenDivSpillsAndRestores(v: Variant, g: Gen, m: Machine, vals: seq<Word>)
    requires 2 <= g.reg && |vals| == g.reg && Holds(m, vals)
    ensures Extends(g, GenDiv(v, g)) && AllStraightLine(Emitted(g, GenDiv(v, g)))
    ensures var out := Exec(Emitted(g, GenDiv(v, g)), m);
      var q := Divide(v, vals[g.reg - 2], vals[g.reg - 1]);
      && (q.None? ==> out.None?)
      && (q.Some? ==> out.Some? && Holds(out.value, vals[..g.reg - 2] + [q.value])
                      && out.value.stack == m.stack && out.value.globals == m.globals)
  {
    assert Emitted(g, GenDiv(v, g)) == DivCode(g.reg, Extension(v));
    if g.reg == 2 {
      DivideInPlace(v, m, vals);
      var q := Divide(v, vals[0], vals[1]);
      if q.Some? {
        assert vals[..0] + [q.value] == [q.value];
      }
    } else {
      DivideSpilled(v, m, vals);
    }
  }

  /** As written, `genDiv` divides the unsigned reading of the dividend at
      every depth: `regs[n-2]` becomes `TruncDiv(Unsigned(a), b)` when that
      fits in 32 bits, and the code faults otherwise. */
  lemma GenDivAsWrittenDividesUnsigned(g: Gen, m: Machine, vals: seq<Word>)
    requires 2 <= g.reg && |vals| == g.reg && Holds(m, vals)
    ensures var a, b := vals[g.reg - 2], vals[g.reg - 1];
      var out := Exec(Emitted(g, GenDiv(AsWritten, g)), m);
      && (b == 0 ==> out.None?)
      && (b != 0 ==>
            var q := TruncDiv(Unsigned(a), b);
            && (-0x8000_0000 <= q < 0x8000_0000 ==>
                  out.Some? && Holds(out.value, vals[..g.reg - 2] + [q])
                  && out.value.stack == m.stack && out.value.globals == m.globals)
            && (!(-0x8000_0000 <= q < 0x8000_0000) ==> out.None?))
  {
    GenDivSpillsAndRestores(AsWritten, g, m, vals);
  }

  /** Corrected, `genDiv` divides the signed dividend at every depth:
      `regs[n-2]` becomes `a / b` rounded toward zero when that fits in 32
      bits (all cases but -2^31 / -1), and the code faults otherwise. */
  lemma GenDivDividesSigned(g: Gen, m: Machine, vals: seq<Word>)
    requires 2 <= g.reg && |vals| == g.reg && Holds(m, vals)
    ensures var a, b := vals[g.reg - 2], vals[g.reg - 1];
      var out := Exec(Emitted(g, GenDiv(Corrected, g)), m);
      && (b == 0 ==> out.None?)
      && (b != 0 && !(a == -0x8000_0000 && b == -1) ==>
            out.Some? && Holds(out.value, vals[..g.reg - 2] + [TruncDiv(a, b)])
            && out.value.stack == m.stack && out.value.globals == m.globals)
      && (a == -0x8000_0000 && b == -1 ==> out.None?)
  {
    var a, b := vals[g.reg - 2], vals[g.reg - 1];
    GenDivSpillsAndRestores(Corrected, g, m, vals);
    if b != 0 {
      SignedQuotientFits(a, b);
    }
  }

  /** A signed 32-bit quotient fits in 32 bits except for -2^31 / -1. */
  lemma SignedQuotientFits(a: Word, b: Word)
    requires b != 0
    ensures -0x8000_0000 <= TruncDiv(a, b) < 0x8000_0000 <==> !(a == -0x8000_0000 && b == -1)
  {
    var q := Abs(a) / Abs(b);
    if Abs(b) == 1 {
      assert q == Abs(a);
    } else {
      SmallQuotient(Abs(a), Abs(b));
    }
  }

  /** Dividing by at least 2 at least halves. */
  lemma SmallQuotient(x: nat, y: nat)
    requires y >= 2
    ensures x / y * 2 <= x
  {
    var q, r := x / y, x % y;
    assert x == q * y + r && r >= 0;
    assert q * y >= q * 2;
  }

  /** The counterexample: (-7)/2 computes 2147483644 as written; with the
      sign extension it computes -3, division rounding toward zero. */
  lemma ZeroExtendedDivisionCounterexample(g: Gen, m: Machine)
    requires g.reg == 2 && Holds(m, [-7, 2])
    ensures Divide(AsWritten, -7, 2) == Some(2147483644)
    ensures Divide(Corrected, -7, 2) == Some(-3)
    ensures Exec(Emitted(g, GenDiv(AsWritten, g)), m).Some?
    ensures Exec(Emitted(g, GenDiv(AsWritten, g)), m).value.regs[Eax] == 2147483644
    ensures Exec(Emitted(g, GenDiv(Corrected, g)), m).Some?
    ensures Exec(Emitted(g, GenDiv(Corrected, g)), m).value.regs[Eax] == -3
  {
    assert Unsigned(-7) == 4294967289;
    assert TruncDiv(4294967289, 2) == 2147483644;
    assert TruncDiv(-7, 2) == -3;
    GenDivSpillsAndRestores(AsWritten, g, m, [-7, 2]);
    GenDivSpillsAndRestores(Corrected, g, m, [-7, 2]);
    var w := Exec(Emitted(g, GenDiv(AsWritten, g)), m).value;
    var c := Exec(Emitted(g, GenDiv(Corrected, g)), m).value;
    assert w.regs[Eax] == w.regs[..1][0];
    assert c.regs[Eax] == c.regs[..1][0];
  }
}

/** The remaining generators, each against its stack-machine step. */
module AsmGenSteps {
  import opened Outcomes
  import opened X86
  import opened Scopes
  import opened AsmGen
  import opened AsmGenFacts

  lemma HoldsPush(m: Machine, vals: seq<Word>, v: Word)
    requires Holds(m, vals) && |vals| < PoolSize
    ensures Holds(m.(regs := m.regs[|vals| := v]), vals + [v])
  {
    var regs := m.regs[|vals| := v];
    assert regs[..|vals| + 1] == m.regs[..|vals|] + [v];
  }

  lemma HoldsReplaceTop(m: Machine, vals: seq<Word>, k: nat, v: Word)
    requires Holds(m, vals) && 0 < k <= |vals|
    ensures Holds(m.(regs := m.regs[k - 1 := v]), vals[..k - 1] + [v])
  {
    var regs := m.regs[k - 1 := v];
    assert regs[..k] == m.regs[..k - 1] + [v];
    assert m.regs[..k - 1] == vals[..k - 1];
  }

  /** `genImm` pushes the immediate (truncated to 32 bits) onto the value
      stack; nothing else changes. */
  lemma GenImmPushes(g: Gen, val: int, m: Machine, vals: seq<Word>)
    requires g.reg < PoolSize && |vals| == g.reg && Holds(m, vals)
    ensures GenImm(g, val).Ok?
    ensures AllStraightLine(Emitted(g, GenImm(g, val).value))
    ensures var out := Exec(Emitted(g, GenImm(g, val).value), m);
      && out.Some? && Holds(out.value, vals + [Wrap(val)])
      && out.value.stack == m.stack && out.value.globals == m.globals
  {
    assert Emitted(g, GenImm(g, val).value) == [MovImm(g.reg, val)];
    ExecOne(MovImm(g.reg, val), m);
    HoldsPush(m, vals, Wrap(val));
  }

  /** The value a name denotes at run time: a constant's value, a global's
      word, or the frame slot of a local. */
  function NameValue(env: Env, m: Machine, name: string): Option<Word> {
    match Resolve(env, name)
    case None => None
    case Some(Binding(s, global)) =>
      if s.kind == Const then Some(Wrap(s.val))
      else if global then (if name in m.globals then Some(m.globals[name]) else None)
      else match Slot(m, s.addr)
           case Some(k) => Some(m.stack[k])
           case None => None
  }

  /** `genIdent` emits exactly what resolution (active scope first, then
      global) prescribes: an immediate for a constant, a load by name for a
      global variable, a frame load for a local. */
  lemma GenIdentFollowsResolve(g: Gen, env: Env, name: string)
    requires g.reg < PoolSize && Resolve(env, name).Some?
    ensures GenIdent(g, env, name).Ok?
    ensures var b := Resolve(env, name).value;
      Emitted(g, GenIdent(g, env, name).value)
      == (if b.sym.kind == Const then [MovImm(g.reg, b.sym.val)]
          else if b.global then [LoadGlobal(g.reg, name)]
          else [LoadLocal(g.reg, b.sym.addr)])
  {
  }

  /** `genIdent` pushes the value the name denotes. */
  lemma GenIdentPushes(g: Gen, env: Env, name: string, m: Machine, vals: seq<Word>)
    requires g.reg < PoolSize && |vals| == g.reg && Holds(m, vals)
    requires Resolve(env, name).Some?
    ensures GenIdent(g, env, name).Ok?
    ensures AllStraightLine(Emitted(g, GenIdent(g, env, name).value))
    ensures var out := Exec(Emitted(g, GenIdent(g, env, name).value), m);
      && (NameValue(env, m, name).None? ==> out.None?)
      && (NameValue(env, m, name).Some? ==>
            out.Some? && Holds(out.value, vals + [NameValue(env, m, name).value])
            && out.value.stack == m.stack && out.value.globals == m.globals)
  {
    GenIdentFollowsResolve(g, env, name);
    var e := Emitted(g, GenIdent(g, env, name).value);
    ExecOne(e[0], m);
    if NameValue(env, m, name).Some? {
      HoldsPush(m, vals, NameValue(env, m, name).value);
    }
  }

  /** `genMul`: the two top values are replaced by their 32-bit product. */
  lemma GenMulCombines(g: Gen, m: Machine, vals: seq<Word>)
    requires g.reg >= 2 && |vals| == g.reg && Holds(m, vals)
    ensures AllStraightLine(Emitted(g, GenMul(g)))
    ensures var n := g.reg;
      var out := Exec(Emitted(g, GenMul(g)), m);
      && out.Some?
      && Holds(out.value, vals[..n - 2] + [Wrap(vals[n - 2] as int * vals[n - 1] as int)])
      && out.value.stack == m.stack && out.value.globals == m.globals
  {
    var n := g.reg;
    assert Emitted(g, GenMul(g)) == [Imul(n - 2, n - 1)];
    ExecOne(Imul(n - 2, n - 1), m);
    assert m.regs[n - 2] == vals[n - 2] && m.regs[n - 1] == vals[n - 1] by {
      assert m.regs[..n][n - 2] == m.regs[n - 2] && m.regs[..n][n - 1] == m.regs[n - 1];
    }
    HoldsReplaceTop(m, vals, n - 1, Wrap(vals[n - 2] as int * vals[n - 1] as int));
    assert vals[..n - 1][..n - 2] == vals[..n - 2];
  }

  /** `genAddSub`: `-` replaces the two top values by their difference,
      anything else by their sum (both truncated to 32 bits). */
  lemma GenAddSubCombines(g: Gen, op: string, m: Machine, vals: seq<Word>)
    requires g.reg >= 2 && |vals| == g.reg && Holds(m, vals)
    ensures AllStraightLine(Emitted(g, GenAddSub(g, op)))
    ensures var n := g.reg;
      var a, b := vals[n - 2] as int, vals[n - 1] as int;
      var out := Exec(Emitted(g, GenAddSub(g, op)), m);
      && out.Some?
      && Holds(out.value, vals[..n - 2] + [Wrap(if op == "-" then a - b else a + b)])
      && out.value.stack == m.stack && out.value.globals == m.globals
  {
    var n := g.reg;
    var i := if op == "-" then Sub(n - 2, n - 1) else Add(n - 2, n - 1);
    assert Emitted(g, GenAddSub(g, op)) == [i];
    ExecOne(i, m);
    assert m.regs[n - 2] == vals[n - 2] && m.regs[n - 1] == vals[n - 1] by {
      assert m.regs[..n][n - 2] == m.regs[n - 2] && m.regs[..n][n - 1] == m.regs[n - 1];
    }
    var a, b := vals[n - 2] as int, vals[n - 1] as int;
    HoldsReplaceTop(m, vals, n - 1, Wrap(if op == "-" then a - b else a + b));
    assert vals[..n - 1][..n - 2] == vals[..n - 2];
  }

  /** `genNeg`: the top value is negated in place; the depth is unchanged. */
  lemma GenNegNegatesTop(g: Gen, m: Machine, vals: seq<Word>)
    requires g.reg >= 1 && |vals| == g.reg && Holds(m, vals)
    ensures AllStraightLine(Emitted(g, GenNeg(g)))
    ensures var n := g.reg;
      var out := Exec(Emitted(g, GenNeg(g)), m);
      && out.Some?
      && Holds(out.value, vals[..n - 1] + [Wrap(-(vals[n - 1] as int))])
      && out.value.stack == m.stack && out.value.globals == m.globals
  {
    var n := g.reg;
    assert Emitted(g, GenNeg(g)) == [Neg(n - 1)];
    ExecOne(Neg(n - 1), m);
    assert m.regs[n - 1] == vals[n - 1] by { assert m.regs[..n][n - 1] == m.regs[n - 1]; }
    HoldsReplaceTop(m, vals, n, Wrap(-(vals[n - 1] as int)));
  }

  /** The meaning of a comparison operator of the source language. */
  predicate Compare(op: string, a: int, b: int)
    requires op in {"=", "#", "<", "<=", ">", ">="}
  {
    match op
    case "=" => a == b
    case "#" => a != b
    case "<" => a < b
    case "<=" => a <= b
    case ">" => a > b
    case ">=" => a >= b
  }

  /** `genCond`: the emitted `cmp` and conditional jump branch to the
      pending label exactly when the comparison is FALSE, so the code after
      it runs only when the condition holds. */
  lemma GenCondJumpsWhenFalse(g: Gen, op: string, m: Machine, vals: seq<Word>)
    requires g.reg >= 2 && |vals| == g.reg && Holds(m, vals)
    requires op in {"=", "#", "<", "<=", ">", ">="}
    ensures GenCond(g, op).Ok?
    ensures var e := Emitted(g, GenCond(g, op).value);
      && |e| == 2 && e[1].Jcc? && e[1].target == g.labelid
      && AllStraightLine(e[..1])
      && Exec(e[..1], m).Some?
      && (Taken(e[1].cc, Exec(e[..1], m).value.flags) <==> !Compare(op, vals[g.reg - 2], vals[g.reg - 1]))
  {
    var n := g.reg;
    var e := Emitted(g, GenCond(g, op).value);
    assert e[..1] == [Cmp(n - 2, n - 1)];
    ExecOne(Cmp(n - 2, n - 1), m);
    assert m.regs[n - 2] == vals[n - 2] && m.regs[n - 1] == vals[n - 1] by {
      assert m.regs[..n][n - 2] == m.regs[n - 2] && m.regs[..n][n - 1] == m.regs[n - 1];
    }
  }

  /** `genOdd`: the emitted `test` and `jz` branch to the pending label
      exactly when the top value is even, i.e. when `odd` is false. */
  lemma GenOddJumpsWhenEven(g: Gen, m: Machine, vals: seq<Word>)
    requires g.reg >= 1 && |vals| == g.reg && Holds(m, vals)
    ensures var e := Emitted(g, GenOdd(g));
      && |e| == 2 && e[1] == Jcc(Z, g.labelid)
      && AllStraightLine(e[..1])
      && Exec(e[..1], m).Some?
      && (Taken(Z, Exec(e[..1], m).value.flags) <==> vals[g.reg - 1] % 2 == 0)
  {
    var n := g.reg;
    var e := Emitted(g, GenOdd(g));
    assert e[..1] == [TestOne(n - 1)];
    ExecOne(TestOne(n - 1), m);
    assert m.regs[n - 1] == vals[n - 1] by { assert m.regs[..n][n - 1] == m.regs[n - 1]; }
  }

  /** `genAssign` stores where resolution says the variable lives: by name
      for a global, at its frame offset for a local of the active scope. */
  lemma GenAssignFollowsResolve(g: Gen, env: Env, name: string)
    requires g.reg >= 1 && Resolve(env, name).Some?
    ensures var b := Resolve(env, name).value;
      Emitted(g, GenAssign(g, env, name))
      == (if b.global then [StoreGlobal(name, g.reg - 1)]
          else [StoreLocal(b.sym.addr, g.reg - 1)])
  {
  }

  /** `genAssign` writes the top value into the variable and drops it. */
  lemma GenAssignStores(g: Gen, env: Env, name: string, m: Machine, vals: seq<Word>)
    requires g.reg >= 1 && |vals| == g.reg && Holds(m, vals)
    requires Resolve(env, name).Some?
    ensures AllStraightLine(Emitted(g, GenAssign(g, env, name)))
    ensures var b := Resolve(env, name).value;
      var top := vals[g.reg - 1];
      var out := Exec(Emitted(g, GenAssign(g, env, name)), m);
      && (b.global ==> out == Some(m.(globals := m.globals[name := top])))
      && (!b.global && Slot(m, b.sym.addr).Some? ==>
            out == Some(m.(stack := m.stack[Slot(m, b.sym.addr).value := top])))
      && (out.Some? ==> Holds(out.value, vals[..g.reg - 1]))
  {
    GenAssignFollowsResolve(g, env, name);
    var b := Resolve(env, name).value;
    var top := g.reg - 1;
    assert m.regs[top] == vals[top] by {
      assert m.regs[..g.reg][top] == m.regs[top];
    }
    assert m.regs[..top] == vals[..top];
    if b.global {
      ExecOne(StoreGlobal(name, top), m);
    } else {
      ExecOne(StoreLocal(b.sym.addr, top), m);
    }
  }

  /** The procedure prologue reserves one word per local: afterwards every
      frame offset `declare` can hand out (`4*k`, `k < nlocal`) addresses a
      word of the frame, and the epilogue releases exactly those words. */
  lemma FrameCoversLocals(g: Gen, env: Env, name: string, m: Machine)
    requires Valid(m) && name in env.scopes && name != Global && LocalsDense(env.scopes[name])
    ensures var head := Emitted(g, GenProc(g, env, name, true));
      var end := Emitted(g, GenProc(g, env, name, false));
      && AllStraightLine(head[1..]) && AllStraightLine(end[..1])
      && Exec(head[1..], m).Some?
      && var framed := Exec(head[1..], m).value;
      && (forall s :: s in env.scopes[name].sym ==> Slot(framed, env.scopes[name].sym[s].addr).Some?)
      && Exec(end[..1], framed) == Some(m)
  {
    var n := FrameBytes(env, name);
    var head := Emitted(g, GenProc(g, env, name, true));
    var end := Emitted(g, GenProc(g, env, name, false));
    assert head[1..] == [SubEsp(n)];
    assert end[..1] == [AddEsp(n)];
    ExecOne(SubEsp(n), m);
    var framed := Exec(head[1..], m).value;
    assert |framed.stack| == |m.stack| + n / 4;
    ExecOne(AddEsp(n), framed);
    assert framed.stack[..|framed.stack| - n / 4] == m.stack;
  }
}

module AsmLabels {
  import opened AsmGen

  /** The pending labels form a stack: `getLabel` right after `addLabel`
      returns the label just issued and the stack as it was. */
  lemma LabelStackIsLifo(g: Gen)
    ensures GetLabel(AddLabel(g)) == (g.(labelid := g.labelid + 1), g.labelid + 1)
  {
    assert (g.labels + [g.labelid + 1])[..|g.labels|] == g.labels;
  }

  /** Nested `if`/`while` constructs place their labels innermost first:
      two pushes then two pops give the labels back in reverse order. */
  lemma NestedLabelsReverse(g: Gen)
    ensures var g1 := AddLabel(AddLabel(g));
      var (g2, inner) := GetLabel(g1);
      var (g3, outer) := GetLabel(g2);
      inner == g.labelid + 2 && outer == g.labelid + 1 && g3.labels == g.labels
  {
    LabelStackIsLifo(g);
    LabelStackIsLifo(AddLabel(g));
  }
}
