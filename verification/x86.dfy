/** An abstract 32-bit x86 machine, just large enough to give meaning to the
    assembly that code.go emits: the seven pool registers, the native stack
    (top at the end of the sequence, `[esp + 4k]` is the k-th word from the
    top), named global words, and the flags of the last `cmp`/`test`.
    Branches, labels, calls and assembler directives are not executed; they
    end a straight-line fragment. */
module X86 {
  import opened Outcomes

  /** `regs` of code.go:6: eax, ebx, ecx, edx, ebp, esi, edi. */
  const PoolSize: nat := 7
  type RegId = r: nat | r < 7
  const Eax: RegId := 0
  const Ebx: RegId := 1
  const Edx: RegId := 3

  const Two32: int := 0x1_0000_0000
  type Word = x: int | -0x8000_0000 <= x < 0x8000_0000

  /** Two's complement truncation to 32 bits. */
  function Wrap(x: int): (w: Word)
    ensures (w - x) % Two32 == 0
    ensures -0x8000_0000 <= x < 0x8000_0000 ==> w == x
  {
    var u := x % Two32;
    if u >= 0x8000_0000 then u - Two32 else u
  }

  /** The unsigned reading of a register. */
  function Unsigned(w: Word): (u: nat)
    ensures u < Two32 && (u - w) % Two32 == 0
  {
    if w < 0 then w + Two32 else w
  }

  function Abs(x: int): nat {
    if x < 0 then -x else x
  }

  /** Division rounding toward zero, as `idiv` does. */
  function TruncDiv(a: int, b: int): int
    requires b != 0
  {
    var q := Abs(a) / Abs(b);
    if (a < 0) != (b < 0) then -q else q
  }

  /** Condition codes of the conditional jumps code.go emits. */
  datatype Cc = Z | E | NE | L | LE | G | GE

  datatype Instr =
    | MovImm(dst: RegId, imm: int)               // mov r, imm
    | LoadGlobal(dst: RegId, name: string)       // mov r, dword[name]
    | LoadLocal(dst: RegId, offset: int)         // mov r, dword[esp + offset]
    | StoreGlobal(name: string, src: RegId)      // mov dword[name], r
    | StoreLocal(offset: int, src: RegId)        // mov dword[esp + offset], r
    | Imul(dst: RegId, src: RegId)
    | Add(dst: RegId, src: RegId)
    | Sub(dst: RegId, src: RegId)
    | Neg(dst: RegId)
    | Push(src: RegId)
    | Pop(dst: RegId)
    | PushImm(imm: int)                          // push imm
    | ZeroEdx                                    // xor edx, edx
    | Cdq                                        // sign-extend eax into edx
    | Idiv(src: RegId)
    | TestOne(src: RegId)                        // test r, 1
    | Cmp(lhs: RegId, rhs: RegId)
    | SubEsp(bytes: int)                         // sub esp, n
    | AddEsp(bytes: int)                         // add esp, n
    | Jcc(cc: Cc, target: int)                   // j<cc> L<target>
    | Jmp(loop: int)                             // jmp WL<loop>
    | Label(id: int)                             // L<id>:
    | LoopLabel(id: int)                         // WL<id>:
    | Call(name: string)
    | Entry(name: string)                        // <name>:
    | Ret
    | DataWord(name: string, val: int)           // <name> dd <val>
    | Directive(text: string)                    // [bits 32], section .text, start:, ...

  /** The two operands of the last `cmp` (for `test r, 1`: the low bit and 0). */
  datatype Flags = Flags(lhs: int, rhs: int)

  datatype Machine = Machine(regs: seq<Word>, stack: seq<Word>, globals: map<string, Word>, flags: Flags)

  predicate Valid(m: Machine) {
    |m.regs| == PoolSize
  }

  /** Instructions that fall through to the next one. */
  predicate StraightLine(i: Instr) {
    !(i.Jcc? || i.Jmp? || i.Label? || i.LoopLabel? || i.Call? || i.Entry? || i.Ret?
      || i.DataWord? || i.Directive?)
  }

  predicate AllStraightLine(code: seq<Instr>) {
    forall i :: 0 <= i < |code| ==> StraightLine(code[i])
  }

  /** Whether a conditional jump is taken, by Intel's signed definitions. */
  function Taken(cc: Cc, f: Flags): bool {
    match cc
    case Z => f.lhs == f.rhs
    case E => f.lhs == f.rhs
    case NE => f.lhs != f.rhs
    case L => f.lhs < f.rhs
    case LE => f.lhs <= f.rhs
    case G => f.lhs > f.rhs
    case GE => f.lhs >= f.rhs
  }

  /** The stack slot `[esp + offset]` addresses, if it is a word on the stack. */
  function Slot(m: Machine, offset: int): Option<nat> {
    if offset >= 0 && offset % 4 == 0 && offset / 4 < |m.stack|
    then Some(|m.stack| - 1 - offset / 4)
    else None
  }

  /** One instruction; `None` is a processor fault (divide error, stack
      underflow) or an access outside the modelled memory. */
  function Step(i: Instr, m: Machine): (r: Option<Machine>)
    requires Valid(m) && StraightLine(i)
    ensures r.Some? ==> Valid(r.value)
  {
    match i
    case MovImm(d, v) => Some(m.(regs := m.regs[d := Wrap(v)]))
    case LoadGlobal(d, n) =>
      if n in m.globals then Some(m.(regs := m.regs[d := m.globals[n]])) else None
    case LoadLocal(d, off) =>
      (match Slot(m, off)
       case Some(k) => Some(m.(regs := m.regs[d := m.stack[k]]))
       case None => None)
    case StoreGlobal(n, s) => Some(m.(globals := m.globals[n := m.regs[s]]))
    case StoreLocal(off, s) =>
      (match Slot(m, off)
       case Some(k) => Some(m.(stack := m.stack[k := m.regs[s]]))
       case None => None)
    case Imul(d, s) => Some(m.(regs := m.regs[d := Wrap(m.regs[d] as int * m.regs[s] as int)]))
    case Add(d, s) => Some(m.(regs := m.regs[d := Wrap(m.regs[d] as int + m.regs[s] as int)]))
    case Sub(d, s) => Some(m.(regs := m.regs[d := Wrap(m.regs[d] as int - m.regs[s] as int)]))
    case Neg(d) => Some(m.(regs := m.regs[d := Wrap(-(m.regs[d] as int))]))
    case Push(s) => Some(m.(stack := m.stack + [m.regs[s]]))
    case Pop(d) =>
      if |m.stack| == 0 then None
      else Some(m.(regs := m.regs[d := m.stack[|m.stack| - 1]], stack := m.stack[..|m.stack| - 1]))
    case PushImm(v) => Some(m.(stack := m.stack + [Wrap(v)]))
    case ZeroEdx => Some(m.(regs := m.regs[Edx := 0]))
    case Cdq => Some(m.(regs := m.regs[Edx := if m.regs[Eax] < 0 then -1 else 0]))
    case Idiv(s) =>
      var dividend := m.regs[Edx] * Two32 + Unsigned(m.regs[Eax]);
      var divisor := m.regs[s];
      if divisor == 0 then None
      else
        var q := TruncDiv(dividend, divisor);
        if !(-0x8000_0000 <= q < 0x8000_0000) then None
        else
          var rem := dividend - q * divisor;
          assert -0x8000_0000 <= rem < 0x8000_0000 by { DivRemBound(dividend, divisor); }
          Some(m.(regs := m.regs[Eax := q][Edx := rem]))
    case TestOne(s) => Some(m.(flags := Flags(m.regs[s] % 2, 0)))
    case Cmp(a, b) => Some(m.(flags := Flags(m.regs[a], m.regs[b])))
    case SubEsp(n) =>
      if n >= 0 && n % 4 == 0 then Some(m.(stack := m.stack + seq(n / 4, _ => 0))) else None
    case AddEsp(n) =>
      if n >= 0 && n % 4 == 0 && n / 4 <= |m.stack| then Some(m.(stack := m.stack[..|m.stack| - n / 4]))
      else None
  }

  /** The remainder of a truncating division is smaller in magnitude than
      the divisor. */
  lemma DivRemBound(a: int, b: int)
    requires b != 0
    ensures Abs(a - TruncDiv(a, b) * b) < Abs(b)
  {
    var q := Abs(a) / Abs(b);
    var r := Abs(a) % Abs(b);
    assert Abs(a) == q * Abs(b) + r;
    if a < 0 && b < 0 {
      assert a - TruncDiv(a, b) * b == -r;
    } else if a < 0 {
      assert a - TruncDiv(a, b) * b == -r;
    } else if b < 0 {
      assert a - TruncDiv(a, b) * b == r;
    } else {
      assert a - TruncDiv(a, b) * b == r;
    }
  }

  /** A fragment run from its first instruction to its end. Control flow
      is outside this machine: a fragment that reaches a jump, label, call
      or directive has no result here, like one that faults. */
  function Exec(code: seq<Instr>, m: Machine): (r: Option<Machine>)
    requires Valid(m)
    ensures r.Some? ==> Valid(r.value)
    ensures r.Some? ==> AllStraightLine(code)
    decreases |code|
  {
    if |code| == 0 then Some(m)
    else if !StraightLine(code[0]) then None
    else
      match Step(code[0], m)
      case Some(m1) =>
        var r := Exec(code[1..], m1);
        assert r.Some? ==> forall i :: 1 <= i < |code| ==> code[i] == code[1..][i - 1];
        r
      case None => None
  }

  /** A fragment that ran to `m1` hands `m1` to the fragment after it. */
  lemma ExecThen(a: seq<Instr>, b: seq<Instr>, m: Machine, m1: Machine)
    requires Valid(m) && Exec(a, m) == Some(m1)
    ensures Exec(a + b, m) == Exec(b, m1)
  {
    ExecAppend(a, b, m);
  }

  /** A fragment that faulted stops everything after it. */
  lemma ExecStops(a: seq<Instr>, b: seq<Instr>, m: Machine)
    requires Valid(m) && Exec(a, m).None?
    ensures Exec(a + b, m).None?
  {
    ExecAppend(a, b, m);
  }

  /** Running two fragments one after the other. */
  lemma {:induction false} ExecAppend(a: seq<Instr>, b: seq<Instr>, m: Machine)
    requires Valid(m)
    ensures AllStraightLine(a) && AllStraightLine(b) ==> AllStraightLine(a + b)
    ensures Exec(a + b, m) == (match Exec(a, m) case Some(m1) => Exec(b, m1) case None => None)
    decreases |a|
  {
    if AllStraightLine(a) && AllStraightLine(b) {
      forall i | 0 <= i < |a + b| ensures StraightLine((a + b)[i]) {
        if i < |a| { assert (a + b)[i] == a[i]; } else { assert (a + b)[i] == b[i - |a|]; }
      }
    }
    if |a| == 0 {
      assert a + b == b;
    } else {
      assert (a + b)[0] == a[0];
      assert (a + b)[1..] == a[1..] + b;
      if StraightLine(a[0]) {
        match Step(a[0], m)
        case Some(m1) => ExecAppend(a[1..], b, m1);
        case None =>
      }
    }
  }

}
