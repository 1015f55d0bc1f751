/** The recursive-descent parser of the assembly-emitting compiler
    (plzero.go:161-388). It applies the scope rules and drives the code
    generator; every `fatal` is an `Err` carrying the line counter at the
    time of the error.

    The parser pulls tokens from the scanner one at a time. Because the
    scanner is deterministic, the tokens it would hand out are exactly the
    lexemes of `Tokenize` (all tokens up to the first scanner fault), and the
    fault is what the parser meets when it asks for one token more. The
    parser therefore reads from that sequence.

    The parser state carries the compiler `Variant`. `AsWritten` is
    plzero.go as it stands: `genDiv` clears `edx`, and every block ends with
    the global scope active (`Scopes.LeaveBlock`). `Corrected` applies
    two corrections: `genDiv` emits `cdq` instead of `xor edx, edx`, and a
    block restores the scope that was active when it was entered
    (`Scopes.LeaveBlockRestoring`) instead of setting `active = ""`. */
module AsmParser {
  import opened Outcomes
  import opened Bytes
  import opened Lexer
  import opened Scopes
  import opened ScopeFacts
  import opened X86
  import opened AsmGen

  /** The scanner run to its first fault: the lexemes in order, and the
      fault that ends the input (at the latest "EOF"). */
  datatype Scan = Scan(lexemes: seq<Lexeme>, stop: Fault)

  /** `lexemes` are the tokens successive `next` calls return from `input`
      at line `line`, and `stop` is the fault the call after them raises. */
  ghost predicate Chained(input: seq<byte>, line: int, lexemes: seq<Lexeme>, stop: Fault)
    decreases |lexemes|
  {
    if |lexemes| == 0 then Next(input, line) == Err(stop)
    else Next(input, line) == Ok(lexemes[0])
         && Chained(lexemes[0].rest, lexemes[0].line, lexemes[1..], stop)
  }

  /** Repeated `next` from `input` at line `line`, up to the first fault. */
  function Tokenize(input: seq<byte>, line: int): (s: Scan)
    ensures Chained(input, line, s.lexemes, s.stop)
    decreases |input|
  {
    match Next(input, line)
    case Err(f) => Scan([], f)
    case Ok(lx) =>
      var s := Tokenize(lx.rest, lx.line);
      assert ([lx] + s.lexemes)[1..] == s.lexemes;
      Scan([lx] + s.lexemes, s.stop)
  }

  /** The parser's global state: the current token and the line counter
      after it, the tokens still to come and the fault after them, the
      symbol tables, the code generator, and which compiler this is. */
  datatype P = P(tok: Token, line: int, ahead: seq<Lexeme>, stop: Fault, env: Env, gen: Gen,
                 variant: Variant)

  /** The expression tree the parser recognises; a left operand is the
      tree of everything to its left, so the operators associate to the
      left. */
  datatype Expr =
    | Lit(val: int)
    | Ident(name: string)
    | Minus(e: Expr)
    | Bin(op: string, l: Expr, r: Expr)

  /** `e` is `left` with zero or more operators of `ops` applied to it, each
      to the tree before it: `left` is the leftmost operand at the bottom of
      `e`'s left spine, so what was parsed first is combined first. */
  predicate LeftFold(left: Expr, e: Expr, ops: set<string>) {
    e == left || (e.Bin? && e.op in ops && LeftFold(left, e.l, ops))
  }

  /** A fold over `Bin(op, left, x)` is a fold over `left`. */
  lemma {:induction false} LeftFoldGrows(left: Expr, op: string, x: Expr, e: Expr, ops: set<string>)
    requires op in ops && LeftFold(Bin(op, left, x), e, ops)
    ensures LeftFold(left, e, ops)
  {
    if e != Bin(op, left, x) {
      LeftFoldGrows(left, op, x, e.l, ops);
    }
  }

  /** The condition of an `if` or `while`. */
  datatype Cond = Odd(e: Expr) | Rel(op: string, l: Expr, r: Expr)

  /** An expression was parsed from `p` to `p'`: tokens were consumed, the
      symbol tables and the label state are untouched, and exactly one
      value was pushed onto the register stack. */
  predicate Pushed(p: P, p': P) {
    && |p'.ahead| < |p.ahead|
    && p'.env == p.env
    && p'.gen.reg == p.gen.reg + 1
    && p'.gen.labels == p.gen.labels && p'.gen.labelid == p.gen.labelid
    && Extends(p.gen, p'.gen)
    && p'.variant == p.variant
  }

  /** A fault at the current line from a `Result` with a message. */
  function Lift<T>(line: int, r: Result<T, string>): (r': Result<T, Fault>)
    ensures r.Ok? ==> r' == Ok(r.value)
    ensures r.Err? ==> r' == Err(Fault(line, r.error))
  {
    match r
    case Ok(v) => Ok(v)
    case Err(msg) => Err(Fault(line, msg))
  }

  /** `next`: the following token becomes the current one; past the last
      token the scanner's fault is raised. */
  function Advance(p: P): (r: Result<P, Fault>)
    ensures r.Err? <==> |p.ahead| == 0
    ensures r.Err? ==> r.error == p.stop
    ensures r.Ok? ==> && r.value.ahead == p.ahead[1..] && r.value.stop == p.stop
                      && r.value.tok == p.ahead[0].tok && r.value.line == p.ahead[0].line
                      && r.value.env == p.env && r.value.gen == p.gen
                      && r.value.variant == p.variant
  {
    if |p.ahead| == 0 then Err(p.stop)
    else Ok(p.(tok := p.ahead[0].tok, line := p.ahead[0].line, ahead := p.ahead[1..]))
  }

  /** `accept`: reads a token and insists on its type. */
  function Accept(p: P, typ: string): (r: Result<P, Fault>)
    ensures r.Ok? <==> Advance(p).Ok? && Advance(p).value.tok.Typ() == typ
    ensures r.Ok? ==> r == Advance(p)
    ensures Advance(p).Ok? && r.Err? ==> r.error == Fault(Advance(p).value.line, typ + " expected")
  {
    var p1 :- Advance(p);
    if p1.tok.Typ() != typ then Err(Fault(p1.line, typ + " expected")) else Ok(p1)
  }

  /** `expect`: insists on the type of the current token, then reads on. */
  function Expect(p: P, typ: string): (r: Result<P, Fault>)
    ensures p.tok.Typ() != typ ==> r == Err(Fault(p.line, typ + " expected"))
    ensures p.tok.Typ() == typ ==> r == Advance(p)
  {
    if p.tok.Typ() != typ then Err(Fault(p.line, typ + " expected")) else Advance(p)
  }

  /** `factor`: a name (checked, then loaded), a number, or a parenthesised
      expression. */
  function Factor(p: P): (r: Result<(P, Expr), Fault>)
    ensures r.Ok? ==> Pushed(p, r.value.0)
    ensures r.Ok? && p.tok.Identifier? ==> r.value.1 == Ident(p.tok.name)
    ensures r.Ok? && p.tok.Integer? ==> r.value.1 == Lit(p.tok.val)
    ensures !p.tok.Identifier? && !p.tok.Integer? && p.tok.Typ() != "(" ==>
              r == Err(Fault(p.line, "invalid factor: " + p.tok.Typ()))
    decreases |p.ahead|, 1
  {
    if p.tok.Identifier? then
      var name := p.tok.name;
      var _ :- Lift(p.line, Check(p.env, name, false));
      var g :- Lift(p.line, GenIdent(p.gen, p.env, name));
      var p1 :- Advance(p.(gen := g));
      Ok((p1, Ident(name)))
    else if p.tok.Integer? then
      var g :- Lift(p.line, GenImm(p.gen, p.tok.val));
      var p1 :- Advance(p.(gen := g));
      Ok((p1, Lit(p.tok.val)))
    else if p.tok.Typ() == "(" then
      var p1 :- Advance(p);
      var r1 :- Expression(p1);
      var p2 :- Expect(r1.0, ")");
      Ok((p2, r1.1))
    else Err(Fault(p.line, "invalid factor: " + p.tok.Typ()))
  }

  /** `term`: factors joined by `*` and `/`. */
  function Term(p: P): (r: Result<(P, Expr), Fault>)
    ensures r.Ok? ==> Pushed(p, r.value.0)
    decreases |p.ahead|, 2
  {
    var r1 :- Factor(p);
    TermTail(r1.0, r1.1)
  }

  /** The loop of `term`: each operator's code follows its right operand,
      and the tree built so far becomes the left operand. */
  function TermTail(p: P, left: Expr): (r: Result<(P, Expr), Fault>)
    requires p.gen.reg >= 1
    ensures r.Ok? ==> && |r.value.0.ahead| <= |p.ahead| && r.value.0.env == p.env
                      && r.value.0.gen.reg == p.gen.reg
                      && r.value.0.gen.labels == p.gen.labels
                      && r.value.0.gen.labelid == p.gen.labelid
                      && Continues(p.gen, r.value.0.gen)
                      && r.value.0.variant == p.variant
    ensures r.Ok? ==> r.value.0.tok.Typ() != "*" && r.value.0.tok.Typ() != "/"
    ensures r.Ok? ==> LeftFold(left, r.value.1, {"*", "/"})
    ensures p.tok.Typ() != "*" && p.tok.Typ() != "/" ==> r == Ok((p, left))
    decreases |p.ahead|, 0
  {
    var op := p.tok.Typ();
    if op == "*" || op == "/" then
      var p1 :- Advance(p);
      var r1 :- Factor(p1);
      var p2 := r1.0;
      var g := if op == "*" then GenMul(p2.gen) else GenDiv(p.variant, p2.gen);
      var r := TermTail(p2.(gen := g), Bin(op, left, r1.1));
      if r.Ok? then LeftFoldGrows(left, op, r1.1, r.value.1, {"*", "/"}); r else r
    else Ok((p, left))
  }

  /** `expression`: an optional sign, then terms joined by `+` and `-`. A
      leading minus negates the first term only. */
  function Expression(p: P): (r: Result<(P, Expr), Fault>)
    ensures r.Ok? ==> Pushed(p, r.value.0)
    decreases |p.ahead|, 3
  {
    var neg := p.tok.Typ() == "-";
    var p1 :- if p.tok.Typ() == "+" || neg then Advance(p) else Ok(p);
    var r1 :- Term(p1);
    var p2 := r1.0;
    if neg then ExprTail(p2.(gen := GenNeg(p2.gen)), Minus(r1.1))
    else ExprTail(p2, r1.1)
  }

  /** The loop of `expression`. */
  function ExprTail(p: P, left: Expr): (r: Result<(P, Expr), Fault>)
    requires p.gen.reg >= 1
    ensures r.Ok? ==> && |r.value.0.ahead| <= |p.ahead| && r.value.0.env == p.env
                      && r.value.0.gen.reg == p.gen.reg
                      && r.value.0.gen.labels == p.gen.labels
                      && r.value.0.gen.labelid == p.gen.labelid
                      && Continues(p.gen, r.value.0.gen)
                      && r.value.0.variant == p.variant
    ensures r.Ok? ==> r.value.0.tok.Typ() != "+" && r.value.0.tok.Typ() != "-"
    ensures r.Ok? ==> LeftFold(left, r.value.1, {"+", "-"})
    ensures p.tok.Typ() != "+" && p.tok.Typ() != "-" ==> r == Ok((p, left))
    decreases |p.ahead|, 0
  {
    var op := p.tok.Typ();
    if op == "+" || op == "-" then
      var p1 :- Advance(p);
      var r1 :- Term(p1);
      var p2 := r1.0;
      var r := ExprTail(p2.(gen := GenAddSub(p2.gen, op)), Bin(op, left, r1.1));
      if r.Ok? then LeftFoldGrows(left, op, r1.1, r.value.1, {"+", "-"}); r else r
    else Ok((p, left))
  }

  /** `condition`: pushes a fresh label, then emits the test whose jump to
      that label is taken when the condition is false. */
  function Condition(p: P): (r: Result<(P, Cond), Fault>)
    ensures r.Ok? ==> var p' := r.value.0;
      && |p'.ahead| < |p.ahead| && p'.env == p.env
      && p'.gen.reg == p.gen.reg
      && p'.gen.labelid == p.gen.labelid + 1
      && p'.gen.labels == p.gen.labels + [p.gen.labelid + 1]
      && Extends(p.gen, p'.gen)
      && p'.gen.code[|p'.gen.code| - 1].Jcc?
      && p'.gen.code[|p'.gen.code| - 1].target == p.gen.labelid + 1
      && p'.variant == p.variant
    ensures r.Ok? && r.value.1.Rel? ==> r.value.1.op in {"=", "#", "<", "<=", ">", ">="}
    decreases |p.ahead|, 4
  {
    var p0 := p.(gen := AddLabel(p.gen));
    if p.tok.Typ() == "odd" then
      var p1 :- Advance(p0);
      var r1 :- Expression(p1);
      var p2 := r1.0;
      Ok((p2.(gen := GenOdd(p2.gen)), Odd(r1.1)))
    else
      var r1 :- Expression(p0);
      var cond := r1.0.tok.Typ();
      var p1 :- Advance(r1.0);
      var r2 :- Expression(p1);
      var p2 := r2.0;
      var g :- Lift(p2.line, GenCond(p2.gen, cond));
      Ok((p2.(gen := g), Rel(cond, r1.1, r2.1)))
  }

  /** A statement was parsed from `p` to `p'`: input was consumed, code was
      emitted, and the register depth, the pending labels and the symbol
      tables are as before. */
  predicate Balanced(p: P, p': P) {
    && |p'.ahead| < |p.ahead|
    && p'.env == p.env
    && p'.gen.reg == p.gen.reg
    && p'.gen.labels == p.gen.labels
    && p'.gen.labelid >= p.gen.labelid
    && Extends(p.gen, p'.gen)
    && p'.variant == p.variant
  }

  /** `statement`: assignment, call, `if`, `while` or `begin ... end`. */
  function Statement(p: P): (r: Result<P, Fault>)
    ensures r.Ok? ==> Balanced(p, r.value)
    ensures !p.tok.Identifier? && p.tok.Typ() !in {"call", "if", "while", "begin"} ==>
      r == Err(Fault(p.line, "invalid statement: " + p.tok.Typ()))
    decreases |p.ahead|, 2
  {
    if p.tok.Identifier? then Assignment(p)
    else if p.tok.Typ() == "call" then CallStatement(p)
    else if p.tok.Typ() == "if" then IfStatement(p)
    else if p.tok.Typ() == "while" then WhileStatement(p)
    else if p.tok.Typ() == "begin" then Compound(p)
    else Err(Fault(p.line, "invalid statement: " + p.tok.Typ()))
  }

  /** `name := expression`: the target is checked (it must resolve and not
      be a constant) before anything else is read. */
  function Assignment(p: P): (r: Result<P, Fault>)
    requires p.tok.Identifier?
    ensures r.Ok? ==> Balanced(p, r.value)
    ensures Check(p.env, p.tok.name, true).Err? ==>
      r == Err(Fault(p.line, Check(p.env, p.tok.name, true).error))
    decreases |p.ahead|, 0
  {
    var name := p.tok.name;
    var _ :- Lift(p.line, Check(p.env, name, true));
    var p1 :- Accept(p, ":=");
    var p2 :- Advance(p1);
    var r1 :- Expression(p2);
    var p3 := r1.0;
    Ok(p3.(gen := GenAssign(p3.gen, p3.env, name)))
  }

  /** `call name`: the callee is not looked up. */
  function CallStatement(p: P): (r: Result<P, Fault>)
    ensures r.Ok? ==> Balanced(p, r.value)
    ensures r.Ok? ==> Accept(p, "identifier").Ok?
                      && r.value.gen.code == p.gen.code + [Call(Accept(p, "identifier").value.tok.Name())]
    decreases |p.ahead|, 0
  {
    var p1 :- Accept(p, "identifier");
    Advance(p1.(gen := GenCall(p1.gen, p1.tok.Name())))
  }

  /** The last instruction emitted so far is `i`. */
  predicate EndsIn(g: Gen, i: Instr) {
    |g.code| > 0 && g.code[|g.code| - 1] == i
  }

  /** Instruction `k` of the code is `i`. */
  predicate At(g: Gen, k: int, i: Instr) {
    0 <= k < |g.code| && g.code[k] == i
  }

  /** The last two instructions emitted so far are `i` and `j`. */
  predicate EndsInTwo(g: Gen, i: Instr, j: Instr) {
    |g.code| >= 2 && g.code[|g.code| - 2] == i && g.code[|g.code| - 1] == j
  }

  /** `if condition then statement`: the label the condition jumps to on
      false is placed after the statement. */
  function IfStatement(p: P): (r: Result<P, Fault>)
    ensures r.Ok? ==> Balanced(p, r.value)
    ensures r.Ok? ==> EndsIn(r.value.gen, Label(p.gen.labelid + 1))
    decreases |p.ahead|, 0
  {
    var p1 :- Advance(p);
    var r1 :- Condition(p1);
    var p2 := r1.0;
    var r := Guarded(p2, "then", None, p.gen.labelid + 1);
    if r.Ok? then
      IfClosed(p, p2, r.value);
      r
    else r
  }

  /** The condition's code, then the guarded statement's. */
  lemma IfClosed(p: P, p2: P, p': P)
    requires |p2.ahead| < |p.ahead| && p2.env == p.env && p2.gen.reg == p.gen.reg
    requires p2.gen.labels == p.gen.labels + [p.gen.labelid + 1]
    requires p2.gen.labelid == p.gen.labelid + 1 && Extends(p.gen, p2.gen)
    requires |p'.ahead| < |p2.ahead| && p'.env == p2.env && p'.gen.reg == p2.gen.reg
    requires p'.gen.labels == p2.gen.labels[..|p2.gen.labels| - 1]
    requires p'.gen.labelid >= p2.gen.labelid && Extends(p2.gen, p'.gen)
    requires p2.variant == p.variant && p'.variant == p2.variant
    ensures Balanced(p, p')
  {
    assert p2.gen.labels[..|p2.gen.labels| - 1] == p.gen.labels;
    ContinuesTrans(p.gen, p2.gen, p'.gen);
  }

  /** `while condition do statement`: the loop label is numbered with the
      label counter before the condition draws a fresh one; the body jumps
      back to it, and the condition's exit label follows. */
  function WhileStatement(p: P): (r: Result<P, Fault>)
    ensures r.Ok? ==> Balanced(p, r.value)
    ensures r.Ok? ==> At(r.value.gen, |p.gen.code|, LoopLabel(p.gen.labelid))
    ensures r.Ok? ==> EndsInTwo(r.value.gen, Jmp(p.gen.labelid), Label(p.gen.labelid + 1))
    decreases |p.ahead|, 1
  {
    var r := LoopBody(p.(gen := Emit(p.gen, [LoopLabel(p.gen.labelid)])), p.gen.labelid);
    if r.Ok? then LoopLabelKept(p, r.value); r else r
  }

  /** Code appended after the loop label leaves it in place. */
  lemma LoopLabelKept(p: P, p': P)
    requires var g0 := p.gen.(code := p.gen.code + [LoopLabel(p.gen.labelid)]);
      && |p'.ahead| < |p.ahead| && p'.env == p.env
      && p'.gen.reg == p.gen.reg
      && p'.gen.labels == p.gen.labels
      && p'.gen.labelid >= p.gen.labelid
      && Continues(g0, p'.gen)
      && p'.variant == p.variant
    ensures Balanced(p, p')
    ensures At(p'.gen, |p.gen.code|, LoopLabel(p.gen.labelid))
  {
    var g0 := p.gen.(code := p.gen.code + [LoopLabel(p.gen.labelid)]);
    ContinuesAt(g0, p'.gen, |p.gen.code|);
    ContinuesTrans(p.gen, g0, p'.gen);
  }

  /** `while` after its loop label: the condition, then the guarded body
      with the jump back to the loop label `w`. */
  function LoopBody(p: P, w: int): (r: Result<P, Fault>)
    requires p.gen.labelid == w
    ensures r.Ok? ==> var p' := r.value;
      && |p'.ahead| < |p.ahead| && p'.env == p.env
      && p'.gen.reg == p.gen.reg
      && p'.gen.labels == p.gen.labels
      && p'.gen.labelid >= p.gen.labelid
      && Continues(p.gen, p'.gen)
      && EndsInTwo(p'.gen, Jmp(w), Label(w + 1))
      && p'.variant == p.variant
    decreases |p.ahead|, 0
  {
    var p1 :- Advance(p);
    var r1 :- Condition(p1);
    var p2 := r1.0;
    assert p2.gen.labels[..|p.gen.labels|] == p.gen.labels;
    var r := Guarded(p2, "do", Some(w), w + 1);
    if r.Ok? then
      ContinuesTrans(p.gen, p2.gen, r.value.gen);
      r
    else r
  }

  /** The part of `if` and `while` after the condition: the keyword, the
      body, for a loop the jump back to its start, and the label `exit` the
      condition jumps to, popped from the top of the label stack. */
  function Guarded(p: P, keyword: string, loop: Option<int>, exit: int): (r: Result<P, Fault>)
    requires |p.gen.labels| > 0 && p.gen.labels[|p.gen.labels| - 1] == exit
    ensures r.Ok? ==> var p' := r.value;
      && |p'.ahead| < |p.ahead| && p'.env == p.env
      && p'.gen.reg == p.gen.reg
      && p'.gen.labels == p.gen.labels[..|p.gen.labels| - 1]
      && p'.gen.labelid >= p.gen.labelid
      && Extends(p.gen, p'.gen)
      && p'.variant == p.variant
      && (loop.None? ==> EndsIn(p'.gen, Label(exit)))
      && (loop.Some? ==> EndsInTwo(p'.gen, Jmp(loop.value), Label(exit)))
    decreases |p.ahead|, 0
  {
    var p1 :- Expect(p, keyword);
    var p2 :- Statement(p1);
    var g := CloseGuard(p2.gen, loop);
    ContinuesTrans(p.gen, p2.gen, g);
    Ok(p2.(gen := g))
  }

  /** The end of a guarded statement: the jump back for a loop, then the
      exit label popped from the label stack. */
  function CloseGuard(g: Gen, loop: Option<int>): (g': Gen)
    requires |g.labels| > 0
    ensures g'.reg == g.reg && g'.labelid == g.labelid
    ensures g'.labels == g.labels[..|g.labels| - 1]
    ensures Extends(g, g')
    ensures loop.None? ==> EndsIn(g', Label(g.labels[|g.labels| - 1]))
    ensures loop.Some? ==> EndsInTwo(g', Jmp(loop.value), Label(g.labels[|g.labels| - 1]))
  {
    GenLabel(if loop.Some? then GenJmp(g, loop.value) else g)
  }

  /** `begin statement {; statement} end`. */
  function Compound(p: P): (r: Result<P, Fault>)
    ensures r.Ok? ==> Balanced(p, r.value)
    decreases |p.ahead|, 0
  {
    var p1 :- Advance(p);
    var p2 :- Statement(p1);
    var p3 :- StatementTail(p2);
    Expect(p3, "end")
  }

  /** The loop of `begin`: further statements after each `;`. */
  function StatementTail(p: P): (r: Result<P, Fault>)
    ensures r.Ok? ==> && |r.value.ahead| <= |p.ahead| && r.value.env == p.env
                      && r.value.gen.reg == p.gen.reg
                      && r.value.gen.labels == p.gen.labels
                      && r.value.gen.labelid >= p.gen.labelid
                      && Continues(p.gen, r.value.gen)
                      && r.value.variant == p.variant
    ensures r.Ok? ==> r.value.tok.Typ() != ";"
    decreases |p.ahead|, 0
  {
    if p.tok.Typ() == ";" then
      var p1 :- Advance(p);
      var p2 :- Statement(p1);
      StatementTail(p2)
    else Ok(p)
  }

  /** What a declaration list leaves alone: the current token is the one
      after it, the active scope, the scope names and the register and label
      state are unchanged, code was only appended, and the addressing
      invariant still holds. */
  predicate Declared(p: P, p': P) {
    && |p'.ahead| <= |p.ahead|
    && p'.env.active == p.env.active
    && p'.env.scopes.Keys == p.env.scopes.Keys
    && p'.gen.reg == p.gen.reg && p'.gen.labels == p.gen.labels
    && p'.gen.labelid == p.gen.labelid
    && Continues(p.gen, p'.gen)
    && p'.variant == p.variant
  }

  /** `declare` inside the parser: a global's initial value is emitted as a
      data word (`name dd val`). */
  function DeclareHere(p: P, scope: string, kind: Kind, name: string, val: int): (r: Result<P, Fault>)
    requires scope in p.env.scopes
    ensures r.Ok? <==> name !in p.env.scopes[scope].sym
    ensures r.Err? ==> r.error == Fault(p.line, name + " redeclared")
    ensures r.Ok? ==> && r.value.env == Declare(p.env, scope, kind, name, val).value.0
                      && r.value.tok == p.tok && r.value.ahead == p.ahead
                      && Declared(p, r.value)
                      && (WellFormed(p.env) ==> WellFormed(r.value.env))
    ensures r.Ok? && scope == Global ==> r.value.gen.code == p.gen.code + [DataWord(name, val)]
    ensures r.Ok? && scope != Global ==> r.value.gen == p.gen
  {
    var d :- Lift(p.line, Declare(p.env, scope, kind, name, val));
    DeclarePreservesWellFormed(p.env, scope, kind, name, val);
    var g := if d.1.Some? then Emit(p.gen, [DataWord(name, d.1.value)]) else p.gen;
    Ok(p.(env := d.0, gen := g))
  }

  /** `const name = number {, name = number} ;` */
  function ConstList(p: P, scope: string): (r: Result<P, Fault>)
    requires scope in p.env.scopes
    ensures r.Ok? ==> Declared(p, r.value) && |r.value.ahead| < |p.ahead|
                      && (WellFormed(p.env) ==> WellFormed(r.value.env))
    ensures r.Ok? ==> r.value.tok.Typ() == ";"
    decreases |p.ahead|
  {
    var p1 :- Accept(p, "identifier");
    var name := p1.tok.Name();
    var p2 :- Accept(p1, "=");
    var p3 :- Accept(p2, "integer");
    var p4 :- DeclareHere(p3, scope, Const, name, p3.tok.Val());
    var p5 :- Advance(p4);
    if p5.tok.Typ() == ";" then Ok(p5)
    else if p5.tok.Typ() != "," then Err(Fault(p5.line, ", expected."))
    else
      var r := ConstList(p5, scope);
      if r.Ok? then ContinuesTrans(p.gen, p5.gen, r.value.gen); r else r
  }

  /** `var name {, name} ;` */
  function VarList(p: P, scope: string): (r: Result<P, Fault>)
    requires scope in p.env.scopes
    ensures r.Ok? ==> Declared(p, r.value) && |r.value.ahead| < |p.ahead|
                      && (WellFormed(p.env) ==> WellFormed(r.value.env))
    ensures r.Ok? ==> r.value.tok.Typ() == ";"
    decreases |p.ahead|
  {
    var p1 :- Accept(p, "identifier");
    var p2 :- DeclareHere(p1, scope, Var, p1.tok.Name(), 0);
    var p3 :- Advance(p2);
    if p3.tok.Typ() == ";" then Ok(p3)
    else if p3.tok.Typ() != "," then Err(Fault(p3.line, ", expected."))
    else
      var r := VarList(p3, scope);
      if r.Ok? then ContinuesTrans(p.gen, p3.gen, r.value.gen); r else r
  }

  /** The declaration part of `block`: optional constants, optional
      variables, and for the global scope the start of the text section. */
  function Declarations(p: P, scope: string): (r: Result<P, Fault>)
    requires scope in p.env.scopes
    ensures r.Ok? ==> Declared(p, r.value) && (WellFormed(p.env) ==> WellFormed(r.value.env))
  {
    var p1 :- ConstPart(p, scope);
    var p2 :- VarPart(p1, scope);
    ContinuesTrans(p.gen, p1.gen, p2.gen);
    if scope == Global then Ok(p2.(gen := Emit(p2.gen, [Directive("section .text")])))
    else Ok(p2)
  }

  /** The optional `const` part of a block. */
  function ConstPart(p: P, scope: string): (r: Result<P, Fault>)
    requires scope in p.env.scopes
    ensures r.Ok? ==> Declared(p, r.value) && (WellFormed(p.env) ==> WellFormed(r.value.env))
  {
    if p.tok.Typ() == "const" then
      var q :- ConstList(p, scope);
      Advance(q)
    else Ok(p)
  }

  /** The optional `var` part of a block. */
  function VarPart(p: P, scope: string): (r: Result<P, Fault>)
    requires scope in p.env.scopes
    ensures r.Ok? ==> Declared(p, r.value) && (WellFormed(p.env) ==> WellFormed(r.value.env))
  {
    if p.tok.Typ() == "var" then
      var q :- VarList(p, scope);
      Advance(q)
    else Ok(p)
  }

  /** `block`: reads its first token, creates the scope if it is new, then
      declarations, nested procedures and the body. As written the block
      ends with the global scope active (plzero.go:374); corrected, the
      scope that was active on entry is active again. */
  function Block(p: P, scope: string): (r: Result<P, Fault>)
    ensures r.Ok? ==> var p' := r.value;
      && |p'.ahead| < |p.ahead|
      && p'.variant == p.variant
      && (p.variant == AsWritten ==> p'.env.active == Global)
      && (p.variant == Corrected ==> p'.env.active == p.env.active)
      && p'.env.scopes.Keys >= p.env.scopes.Keys + {scope}
      && p'.gen.reg == p.gen.reg && p'.gen.labels == p.gen.labels
      && p'.gen.labelid >= p.gen.labelid
      && Extends(p.gen, p'.gen)
      && (WellFormed(p.env) ==> WellFormed(p'.env))
    decreases |p.ahead|, 1
  {
    var p1 :- Advance(p);
    var p2 := p1.(env := EnterBlock(p1.env, scope, 0));
    EnterBlockPreservesWellFormed(p1.env, scope, 0);
    var p3 :- Declarations(p2, scope);
    var p4 :- ProcDecls(p3);
    var p5 :- Body(p4, scope);
    ContinuesTrans(p.gen, p3.gen, p4.gen);
    var exit := match p.variant
                case AsWritten => LeaveBlock(p5.env)
                case Corrected => LeaveBlockRestoring(p5.env, p.env.active);
    Ok(p5.(env := exit))
  }

  /** `procedure name ; block ;` repeated. */
  function ProcDecls(p: P): (r: Result<P, Fault>)
    ensures r.Ok? ==> var p' := r.value;
      && |p'.ahead| <= |p.ahead|
      && p'.variant == p.variant
      && (p.variant == AsWritten && p.tok.Typ() == "procedure" ==> p'.env.active == Global)
      && (p.variant == Corrected ==> p'.env.active == p.env.active)
      && p'.env.scopes.Keys >= p.env.scopes.Keys
      && p'.gen.reg == p.gen.reg && p'.gen.labels == p.gen.labels
      && p'.gen.labelid >= p.gen.labelid
      && Continues(p.gen, p'.gen)
      && (WellFormed(p.env) ==> WellFormed(p'.env))
    ensures r.Ok? ==> r.value.tok.Typ() != "procedure"
    ensures p.tok.Typ() != "procedure" ==> r == Ok(p)
    decreases |p.ahead|, 0
  {
    if p.tok.Typ() == "procedure" then
      var p1 :- Accept(p, "identifier");
      var p2 :- Accept(p1, ";");
      var p3 :- Block(p2, p1.tok.Name());
      var p4 :- Expect(p3, ";");
      var r := ProcDecls(p4);
      if r.Ok? then ContinuesTrans(p.gen, p4.gen, r.value.gen); r else r
    else Ok(p)
  }

  /** The body of `block`: a procedure's entry label and frame, the
      statement, and the frame release and return; the global body starts
      at the program's entry point. */
  function Body(p: P, scope: string): (r: Result<P, Fault>)
    ensures r.Ok? ==> var p' := r.value;
      && |p'.ahead| < |p.ahead|
      && p'.env == p.env
      && p'.gen.reg == p.gen.reg && p'.gen.labels == p.gen.labels
      && p'.gen.labelid >= p.gen.labelid
      && Extends(p.gen, p'.gen)
      && p'.variant == p.variant
    ensures r.Ok? && scope != Global ==>
      var c := r.value.gen.code; var n := FrameBytes(p.env, scope);
      && |c| >= |p.gen.code| + 4
      && c[|p.gen.code|] == Entry(scope) && c[|p.gen.code| + 1] == SubEsp(n)
      && c[|c| - 2] == AddEsp(n) && c[|c| - 1] == Ret
  {
    var p1 := if scope != Global then p.(gen := GenProc(p.gen, p.env, scope, true))
              else p.(gen := Emit(p.gen, [Directive("start:")]));
    var p2 :- Statement(p1);
    ContinuesTrans(p.gen, p1.gen, p2.gen);
    if scope != Global then
      Framed(p.gen, p2.gen, p.env, scope);
      Ok(p2.(gen := GenProc(p2.gen, p2.env, scope, false)))
    else Ok(p2)
  }

  /** A procedure's code opens with its entry label and frame allocation
      and closes with the frame release and `ret`. */
  lemma Framed(g: Gen, g2: Gen, env: Env, scope: string)
    requires Continues(GenProc(g, env, scope, true), g2)
    ensures var g' := GenProc(g2, env, scope, false);
      var c := g'.code; var n := FrameBytes(env, scope);
      && Extends(g, g')
      && |c| >= |g.code| + 4
      && c[|g.code|] == Entry(scope) && c[|g.code| + 1] == SubEsp(n)
      && c[|c| - 2] == AddEsp(n) && c[|c| - 1] == Ret
  {
    var g1 := GenProc(g, env, scope, true);
    var g' := GenProc(g2, env, scope, false);
    ContinuesAt(g1, g2, |g.code|);
    ContinuesAt(g1, g2, |g.code| + 1);
    ContinuesTrans(g, g1, g2);
    ContinuesTrans(g, g2, g');
  }

  /** The instructions that open every program. */
  const Header: seq<Instr> :=
    [Directive("[bits 32]"), Directive("extern _exit"), Directive("global start"),
     Directive("section .data")]

  /** `program`: the global block, then `.`, then the exit call. Input after
      the final `.` is never read. `Program(AsWritten, input)` is plzero.go
      as it stands. */
  function Program(v: Variant, input: seq<byte>): (r: Result<seq<Instr>, Fault>)
    ensures r.Ok? ==> |r.value| >= |Header| + 3 && r.value[..|Header|] == Header
    ensures r.Ok? ==> r.value[|r.value| - 2..] == [PushImm(0), Call("_exit")]
  {
    var s := Tokenize(input, 1);
    var p0 := P(Empty, 1, s.lexemes, s.stop, Env(map[], Global, 1000), Gen(0, 0, [], Header), v);
    var p1 :- Block(p0, Global);
    if p1.tok.Typ() != "." then Err(Fault(p1.line, ". expected"))
    else Ok(p1.gen.code + [PushImm(0), Call("_exit")])
  }

  /** The lexemes after the current token start with the tokens `ts`. */
  predicate Upcoming(p: P, ts: seq<Token>) {
    |p.ahead| >= |ts| && forall i :: 0 <= i < |ts| ==> p.ahead[i].tok == ts[i]
  }

  /** An integer factor pushes its literal and reads on. */
  lemma LiteralFactor(p: P, a: int)
    requires p.tok == Integer(a) && |p.ahead| >= 1 && p.gen.reg < PoolSize
    ensures Factor(p).Ok? && Factor(p).value.1 == Lit(a)
    ensures Factor(p).value.0.tok == p.ahead[0].tok && Factor(p).value.0.ahead == p.ahead[1..]
  {
  }

  /** One round of `term`'s loop over `op b`. */
  lemma TermTailLiteral(p: P, left: Expr, op: string, b: int) returns (p': P)
    requires op in {"*", "/"} && p.tok == Operator(op)
    requires |p.ahead| >= 2 && p.ahead[0].tok == Integer(b)
    requires 1 <= p.gen.reg < PoolSize
    ensures p'.tok == p.ahead[1].tok && p'.ahead == p.ahead[2..]
    ensures p'.gen.reg == p.gen.reg && p'.variant == p.variant
    ensures TermTail(p, left) == TermTail(p', Bin(op, left, Lit(b)))
  {
    var p1 := Advance(p).value;
    LiteralFactor(p1, b);
    var p2 := Factor(p1).value.0;
    p' := p2.(gen := if op == "*" then GenMul(p2.gen) else GenDiv(p.variant, p2.gen));
  }

  /** One round of `expression`'s loop over `op b`, where `b` is followed
      by no `*` or `/`. */
  lemma ExprTailLiteral(p: P, left: Expr, op: string, b: int) returns (p': P)
    requires op in {"+", "-"} && p.tok == Operator(op)
    requires |p.ahead| >= 2 && p.ahead[0].tok == Integer(b)
    requires p.ahead[1].tok.Typ() != "*" && p.ahead[1].tok.Typ() != "/"
    requires 1 <= p.gen.reg < PoolSize
    ensures p'.tok == p.ahead[1].tok && p'.ahead == p.ahead[2..]
    ensures p'.gen.reg == p.gen.reg && p'.variant == p.variant
    ensures ExprTail(p, left) == ExprTail(p', Bin(op, left, Lit(b)))
  {
    var p1 := Advance(p).value;
    LiteralFactor(p1, b);
    var p2 := Factor(p1).value.0;
    assert Term(p1) == Ok((p2, Lit(b)));
    p' := p2.(gen := GenAddSub(p2.gen, op));
  }

  /** `a op1 b op2 c ;` with `op1`, `op2` among `*` and `/` is the term
      `(a op1 b) op2 c`. */
  lemma TermAssociatesLeft(p: P, a: int, op1: string, b: int, op2: string, c: int)
    requires op1 in {"*", "/"} && op2 in {"*", "/"}
    requires p.tok == Integer(a)
    requires Upcoming(p, [Operator(op1), Integer(b), Operator(op2), Integer(c), Operator(";")])
    requires p.gen.reg + 2 <= PoolSize
    ensures Term(p).Ok? && Term(p).value.0.tok == Operator(";")
    ensures Term(p).value.1 == Bin(op2, Bin(op1, Lit(a), Lit(b)), Lit(c))
  {
    var ahead := p.ahead;
    assert ahead[0].tok == Operator(op1) && ahead[1].tok == Integer(b) && ahead[2].tok == Operator(op2)
      && ahead[3].tok == Integer(c) && ahead[4].tok == Operator(";");
    LiteralFactor(p, a);
    var p1 := Factor(p).value.0;
    assert Term(p) == TermTail(p1, Lit(a));
    assert p1.ahead == ahead[1..];
    var p3 := TermTailLiteral(p1, Lit(a), op1, b);
    assert p3.ahead == ahead[3..] && p3.tok == Operator(op2);
    var p5 := TermTailLiteral(p3, Bin(op1, Lit(a), Lit(b)), op2, c);
    assert p5.tok == Operator(";");
  }

  /** `a op1 b op2 c ;` with `op1`, `op2` among `+` and `-` is the
      expression `(a op1 b) op2 c`. */
  lemma ExpressionAssociatesLeft(p: P, a: int, op1: string, b: int, op2: string, c: int)
    requires op1 in {"+", "-"} && op2 in {"+", "-"}
    requires p.tok == Integer(a)
    requires Upcoming(p, [Operator(op1), Integer(b), Operator(op2), Integer(c), Operator(";")])
    requires p.gen.reg + 2 <= PoolSize
    ensures Expression(p).Ok? && Expression(p).value.0.tok == Operator(";")
    ensures Expression(p).value.1 == Bin(op2, Bin(op1, Lit(a), Lit(b)), Lit(c))
  {
    var ahead := p.ahead;
    assert ahead[0].tok == Operator(op1) && ahead[1].tok == Integer(b) && ahead[2].tok == Operator(op2)
      && ahead[3].tok == Integer(c) && ahead[4].tok == Operator(";");
    LiteralFactor(p, a);
    var p1 := Factor(p).value.0;
    assert Term(p) == Ok((p1, Lit(a)));
    assert Expression(p) == ExprTail(p1, Lit(a));
    assert p1.ahead == ahead[1..];
    var p3 := ExprTailLiteral(p1, Lit(a), op1, b);
    assert p3.ahead == ahead[3..] && p3.tok == Operator(op2);
    var p5 := ExprTailLiteral(p3, Bin(op1, Lit(a), Lit(b)), op2, c);
    assert p5.tok == Operator(";");
  }

  /** The term `b op c`, followed by no `*` or `/`. */
  lemma LiteralProduct(q: P, b: int, op: string, c: int)
    requires op in {"*", "/"} && q.tok == Integer(b)
    requires |q.ahead| >= 3 && q.ahead[0].tok == Operator(op) && q.ahead[1].tok == Integer(c)
    requires q.ahead[2].tok.Typ() != "*" && q.ahead[2].tok.Typ() != "/"
    requires q.gen.reg + 2 <= PoolSize
    ensures Term(q).Ok? && Term(q).value.1 == Bin(op, Lit(b), Lit(c))
    ensures Term(q).value.0.tok == q.ahead[2].tok && Term(q).value.0.ahead == q.ahead[3..]
  {
    LiteralFactor(q, b);
    var p2 := Factor(q).value.0;
    var p4 := TermTailLiteral(p2, Lit(b), op, c);
    assert p4.ahead == q.ahead[3..];
  }

  /** One round of `expression`'s loop: the term after the operator becomes
      the right operand. */
  lemma ExprTailStep(p: P, left: Expr, op: string)
    requires op in {"+", "-"} && p.tok == Operator(op) && p.gen.reg >= 1
    requires Advance(p).Ok? && Term(Advance(p).value).Ok?
    ensures var r := Term(Advance(p).value).value;
      ExprTail(p, left) == ExprTail(r.0.(gen := GenAddSub(r.0.gen, op)), Bin(op, left, r.1))
  {
  }

  /** `a op1 b op2 c ;` with `op1` among `+` and `-` and `op2` among `*`
      and `/` is `a op1 (b op2 c)`: a term binds tighter. */
  lemma TermBindsTighter(p: P, a: int, op1: string, b: int, op2: string, c: int)
    requires op1 in {"+", "-"} && op2 in {"*", "/"}
    requires p.tok == Integer(a)
    requires Upcoming(p, [Operator(op1), Integer(b), Operator(op2), Integer(c), Operator(";")])
    requires p.gen.reg + 3 <= PoolSize
    ensures Expression(p).Ok? && Expression(p).value.0.tok == Operator(";")
    ensures Expression(p).value.1 == Bin(op1, Lit(a), Bin(op2, Lit(b), Lit(c)))
  {
    var ahead := p.ahead;
    assert ahead[0].tok == Operator(op1) && ahead[1].tok == Integer(b) && ahead[2].tok == Operator(op2)
      && ahead[3].tok == Integer(c) && ahead[4].tok == Operator(";");
    LiteralFactor(p, a);
    var p1 := Factor(p).value.0;
    assert Term(p) == Ok((p1, Lit(a)));
    var q1 := Advance(p1).value;
    assert q1.ahead == ahead[2..];
    LiteralProduct(q1, b, op2, c);
    ExprTailStep(p1, Lit(a), op1);
  }

  /** `- a op b ;` with `op` among `+` and `-` is `(-a) op b`: the sign
      belongs to the first term only. */
  lemma SignCoversFirstTerm(p: P, a: int, op: string, b: int)
    requires op in {"+", "-"}
    requires p.tok == Operator("-")
    requires Upcoming(p, [Integer(a), Operator(op), Integer(b), Operator(";")])
    requires p.gen.reg + 2 <= PoolSize
    ensures Expression(p).Ok? && Expression(p).value.0.tok == Operator(";")
    ensures Expression(p).value.1 == Bin(op, Minus(Lit(a)), Lit(b))
  {
    var ahead := p.ahead;
    assert ahead[0].tok == Integer(a) && ahead[1].tok == Operator(op) && ahead[2].tok == Integer(b)
      && ahead[3].tok == Operator(";");
    var p0 := Advance(p).value;
    LiteralFactor(p0, a);
    var p1 := Factor(p0).value.0;
    assert Term(p0) == Ok((p1, Lit(a)));
    var n1 := p1.(gen := GenNeg(p1.gen));
    var p3 := ExprTailLiteral(n1, Minus(Lit(a)), op, b);
  }
}
