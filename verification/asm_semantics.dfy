/** What the code the parser emits for an expression or a condition does on
    the abstract machine: an expression's code pushes the value of the tree
    the parser built, and a condition's test makes its jump taken exactly
    when the condition is false. */
module AsmSemantics {
  import opened Outcomes
  import opened Lexer
  import opened Scopes
  import opened X86
  import opened AsmGen
  import opened AsmGenFacts
  import opened AsmGenSteps
  import opened AsmParser

  /** A binary operator on 32-bit words: `*`, `+` and `-` wrap around,
      `/` is the division of compiler variant `v` (no value on a divide
      error). */
  function Apply(v: Variant, op: string, a: Word, b: Word): Option<Word> {
    if op == "*" then Some(Wrap(a as int * b as int))
    else if op == "/" then Divide(v, a, b)
    else if op == "-" then Some(Wrap(a as int - b as int))
    else Some(Wrap(a as int + b as int))
  }

  /** The value of an expression in the frame and globals of `m`, left
      operand first; no value when a name denotes nothing or a division
      faults. */
  function Eval(e: Expr, v: Variant, env: Env, m: Machine): Option<Word> {
    match e
    case Lit(v) => Some(Wrap(v))
    case Ident(name) => NameValue(env, m, name)
    case Minus(e1) =>
      (match Eval(e1, v, env, m)
       case None => None
       case Some(a) => Some(Wrap(-(a as int))))
    case Bin(op, l, r) =>
      match Eval(l, v, env, m)
      case None => None
      case Some(a) =>
        match Eval(r, v, env, m)
        case None => None
        case Some(b) => Apply(v, op, a, b)
  }

  /** The truth of a condition: `odd` tests the low bit; a comparison is
      one of the six relations (anything else has no meaning). */
  function EvalCond(c: Cond, v: Variant, env: Env, m: Machine): Option<bool> {
    match c
    case Odd(e) =>
      (match Eval(e, v, env, m)
       case None => None
       case Some(x) => Some(x % 2 == 1))
    case Rel(op, l, r) =>
      match Eval(l, v, env, m)
      case None => None
      case Some(a) =>
        match Eval(r, v, env, m)
        case None => None
        case Some(b) =>
          if op in {"=", "#", "<", "<=", ">", ">="} then Some(Compare(op, a, b)) else None
  }

  /** `m` and `m0` have the same native stack and globals, so names
      denote the same values in both. */
  predicate SameFrame(m: Machine, m0: Machine) {
    m.stack == m0.stack && m.globals == m0.globals
  }

  /** Run from `m`, `code` leaves `below` with `v` on top on the register
      stack, and the native stack and globals as they were; when there is
      no `v` the code faults. */
  ghost predicate Computes(code: seq<Instr>, m: Machine, below: seq<Word>, v: Option<Word>) {
    && Valid(m)
    && (v.None? ==> Exec(code, m).None?)
    && (v.Some? ==> && Exec(code, m).Some?
                    && Holds(Exec(code, m).value, below + [v.value])
                    && SameFrame(Exec(code, m).value, m))
  }

  lemma NameValueFrame(env: Env, m: Machine, m0: Machine, name: string)
    requires SameFrame(m, m0)
    ensures NameValue(env, m, name) == NameValue(env, m0, name)
  {
    assert Slot(m, 0) == Slot(m0, 0);
  }

  /** The code from `a` to `c` is the code from `a` to `b`, then from `b`
      to `c`. */
  lemma EmittedSplit(a: Gen, b: Gen, c: Gen)
    requires Continues(a, b) && Continues(b, c)
    ensures Continues(a, c)
    ensures Emitted(a, c) == Emitted(a, b) + Emitted(b, c)
  {
    ContinuesTrans(a, b, c);
    assert c.code[..|b.code|] == b.code;
    assert c.code[|a.code|..] == c.code[|a.code|..|b.code|] + c.code[|b.code|..];
    assert c.code[|a.code|..|b.code|] == c.code[..|b.code|][|a.code|..];
  }

  lemma ComputesThen(a: seq<Instr>, b: seq<Instr>, m: Machine, below: seq<Word>, x: Word,
                     below': seq<Word>, v: Option<Word>)
    requires Computes(a, m, below, Some(x))
    requires Computes(b, Exec(a, m).value, below', v)
    ensures Computes(a + b, m, below', v)
  {
    ExecAppend(a, b, m);
  }

  lemma ComputesFails(a: seq<Instr>, b: seq<Instr>, m: Machine, below: seq<Word>, below': seq<Word>)
    requires Computes(a, m, below, None)
    ensures Computes(a + b, m, below', None)
  {
    ExecAppend(a, b, m);
  }

  lemma ComputesNothing(m: Machine, below: seq<Word>, v: Word)
    requires Holds(m, below + [v])
    ensures Computes([], m, below, Some(v))
  {
  }

  /** The stack shape `below + [a] + [b]` seen from the top. */
  lemma TopTwo(below: seq<Word>, a: Word, b: Word)
    ensures var vs := below + [a] + [b];
      |vs| == |below| + 2 && vs[..|vs| - 2] == below && vs[|vs| - 2] == a && vs[|vs| - 1] == b
  {
    var vs := below + [a] + [b];
    assert vs[..|vs| - 2] == below;
  }

  /** Three fragments in a row, each run from where the previous one
      left off; a fragment without a value stops the run. */
  lemma ComputesThree(c1: seq<Instr>, c2: seq<Instr>, c3: seq<Instr>, m: Machine,
                      b1: seq<Word>, x: Option<Word>, b2: seq<Word>, y: Option<Word>,
                      b3: seq<Word>, v: Option<Word>)
    requires Computes(c1, m, b1, x)
    requires x.Some? ==> Computes(c2, Exec(c1, m).value, b2, y)
    requires x.Some? && y.Some? ==> Computes(c3, Exec(c2, Exec(c1, m).value).value, b3, v)
    requires x.None? || y.None? ==> v.None?
    ensures Computes(c1 + (c2 + c3), m, b3, v)
  {
    if x.None? {
      ComputesFails(c1, c2 + c3, m, b1, b3);
    } else {
      var m1 := Exec(c1, m).value;
      if y.None? {
        ComputesFails(c2, c3, m1, b2, b3);
      } else {
        ComputesThen(c2, c3, m1, b2, y.value, b3, v);
      }
      ComputesThen(c1, c2 + c3, m, b1, x.value, b3, v);
    }
  }

  /** `genMul` or `genDiv` with the values of `l` and `r` on top. */
  lemma MulDivStep(g: Gen, op: string, m: Machine, below: seq<Word>, l: Expr, r: Expr, v: Variant, env: Env, m0: Machine)
    requires op == "*" || op == "/"
    requires Eval(l, v, env, m0).Some? && Eval(r, v, env, m0).Some?
    requires g.reg == |below| + 2
    requires Holds(m, below + [Eval(l, v, env, m0).value] + [Eval(r, v, env, m0).value])
    ensures var g' := if op == "*" then GenMul(g) else GenDiv(v, g);
      Continues(g, g') && Computes(Emitted(g, g'), m, below, Eval(Bin(op, l, r), v, env, m0))
  {
    var a, b := Eval(l, v, env, m0).value, Eval(r, v, env, m0).value;
    TopTwo(below, a, b);
    if op == "*" {
      GenMulCombines(g, m, below + [a] + [b]);
    } else {
      GenDivSpillsAndRestores(v, g, m, below + [a] + [b]);
    }
  }

  /** `genAddSub` with the values of `l` and `r` on top. */
  lemma AddSubStep(g: Gen, op: string, m: Machine, below: seq<Word>, l: Expr, r: Expr, v: Variant, env: Env, m0: Machine)
    requires op == "+" || op == "-"
    requires Eval(l, v, env, m0).Some? && Eval(r, v, env, m0).Some?
    requires g.reg == |below| + 2
    requires Holds(m, below + [Eval(l, v, env, m0).value] + [Eval(r, v, env, m0).value])
    ensures Continues(g, GenAddSub(g, op)) && Eval(Bin(op, l, r), v, env, m0).Some?
    ensures Computes(Emitted(g, GenAddSub(g, op)), m, below, Eval(Bin(op, l, r), v, env, m0))
  {
    var a, b := Eval(l, v, env, m0).value, Eval(r, v, env, m0).value;
    TopTwo(below, a, b);
    GenAddSubCombines(g, op, m, below + [a] + [b]);
  }

  /** Once the left operand has no value, no operator chain built on it
      has one. */
  lemma {:induction false} TermTailFails(p: P, left: Expr, m0: Machine)
    requires p.gen.reg >= 1 && TermTail(p, left).Ok? && Eval(left, p.variant, p.env, m0).None?
    ensures Eval(TermTail(p, left).value.1, p.variant, p.env, m0).None?
    decreases |p.ahead|
  {
    var op := p.tok.Typ();
    if op == "*" || op == "/" {
      var p1 := Advance(p).value;
      var r1 := Factor(p1).value;
      var p2 := r1.0;
      var g := if op == "*" then GenMul(p2.gen) else GenDiv(p.variant, p2.gen);
      TermTailFails(p2.(gen := g), Bin(op, left, r1.1), m0);
    }
  }

  lemma {:induction false} ExprTailFails(p: P, left: Expr, m0: Machine)
    requires p.gen.reg >= 1 && ExprTail(p, left).Ok? && Eval(left, p.variant, p.env, m0).None?
    ensures Eval(ExprTail(p, left).value.1, p.variant, p.env, m0).None?
    decreases |p.ahead|
  {
    var op := p.tok.Typ();
    if op == "+" || op == "-" {
      var p1 := Advance(p).value;
      var r1 := Term(p1).value;
      var p2 := r1.0;
      ExprTailFails(p2.(gen := GenAddSub(p2.gen, op)), Bin(op, left, r1.1), m0);
    }
  }

  /** `factor`'s code pushes the value of the factor. */
  lemma {:induction false} FactorComputes(p: P, m: Machine, m0: Machine, vals: seq<Word>)
    requires Factor(p).Ok? && |vals| == p.gen.reg && Holds(m, vals) && SameFrame(m, m0)
    ensures Computes(Emitted(p.gen, Factor(p).value.0.gen), m, vals,
                     Eval(Factor(p).value.1, p.variant, p.env, m0))
    decreases |p.ahead|, 2
  {
    var r := Factor(p).value;
    if p.tok.Identifier? {
      var name := p.tok.name;
      assert Check(p.env, name, false).Ok?;
      var g := GenIdent(p.gen, p.env, name).value;
      assert r.0.gen == g;
      GenIdentPushes(p.gen, p.env, name, m, vals);
      NameValueFrame(p.env, m, m0, name);
    } else if p.tok.Integer? {
      GenImmPushes(p.gen, p.tok.val, m, vals);
    } else {
      var p1 := Advance(p).value;
      var r1 := Expression(p1).value;
      ExpressionComputes(p1, m, m0, vals);
      assert r == (Expect(r1.0, ")").value, r1.1);
    }
  }

  /** `term`'s code pushes the value of the term. */
  lemma {:induction false} TermComputes(p: P, m: Machine, m0: Machine, vals: seq<Word>)
    requires Term(p).Ok? && |vals| == p.gen.reg && Holds(m, vals) && SameFrame(m, m0)
    ensures Computes(Emitted(p.gen, Term(p).value.0.gen), m, vals, Eval(Term(p).value.1, p.variant, p.env, m0))
    decreases |p.ahead|, 3
  {
    var r1 := Factor(p).value;
    var p1 := r1.0;
    var r := TermTail(p1, r1.1).value;
    assert Term(p).value == r;
    FactorComputes(p, m, m0, vals);
    EmittedSplit(p.gen, p1.gen, r.0.gen);
    var code1 := Emitted(p.gen, p1.gen);
    match Eval(r1.1, p.variant, p.env, m0)
    case None =>
      ComputesFails(code1, Emitted(p1.gen, r.0.gen), m, vals, vals);
      TermTailFails(p1, r1.1, m0);
    case Some(a) =>
      var m1 := Exec(code1, m).value;
      TermTailComputes(p1, r1.1, m1, m0, vals);
      ComputesThen(code1, Emitted(p1.gen, r.0.gen), m, vals, a, vals, Eval(r.1, p.variant, p.env, m0));
  }

  /** The loop of `term`: with the left operand's value on top, the code
      leaves the value of the whole chain there instead. */
  lemma {:induction false} TermTailComputes(p: P, left: Expr, m: Machine, m0: Machine, vals: seq<Word>)
    requires p.gen.reg == |vals| + 1 && TermTail(p, left).Ok?
    requires Eval(left, p.variant, p.env, m0).Some? && Holds(m, vals + [Eval(left, p.variant, p.env, m0).value])
    requires SameFrame(m, m0)
    ensures Computes(Emitted(p.gen, TermTail(p, left).value.0.gen), m, vals,
                     Eval(TermTail(p, left).value.1, p.variant, p.env, m0))
    decreases |p.ahead|, 0
  {
    var op := p.tok.Typ();
    var a := Eval(left, p.variant, p.env, m0).value;
    if op == "*" || op == "/" {
      var p1 := Advance(p).value;
      var r1 := Factor(p1).value;
      var p2 := r1.0;
      var g := if op == "*" then GenMul(p2.gen) else GenDiv(p.variant, p2.gen);
      var p3 := p2.(gen := g);
      var e := Bin(op, left, r1.1);
      var r := TermTail(p3, e).value;
      assert TermTail(p, left).value == r;
      FactorComputes(p1, m, m0, vals + [a]);
      EmittedSplit(p2.gen, g, r.0.gen);
      EmittedSplit(p.gen, p2.gen, r.0.gen);
      var x := Eval(r1.1, p.variant, p.env, m0);
      var y := Eval(e, p.variant, p.env, m0);
      var v := Eval(r.1, p.variant, p.env, m0);
      if x.Some? {
        var m1 := Exec(Emitted(p.gen, p2.gen), m).value;
        MulDivStep(p2.gen, op, m1, vals, left, r1.1, p.variant, p.env, m0);
        if y.Some? {
          TermTailComputes(p3, e, Exec(Emitted(p2.gen, g), m1).value, m0, vals);
        }
      }
      if x.None? || y.None? { TermTailFails(p3, e, m0); }
      ComputesThree(Emitted(p.gen, p2.gen), Emitted(p2.gen, g), Emitted(g, r.0.gen), m,
                    vals + [a], x, vals, y, vals, v);
    } else {
      assert Emitted(p.gen, p.gen) == [];
      ComputesNothing(m, vals, a);
    }
  }

  /** `expression`'s code pushes the value of the expression; a leading
      minus negates the first term before the other terms are added. */
  lemma {:induction false} ExpressionComputes(p: P, m: Machine, m0: Machine, vals: seq<Word>)
    requires Expression(p).Ok? && |vals| == p.gen.reg && Holds(m, vals) && SameFrame(m, m0)
    ensures Computes(Emitted(p.gen, Expression(p).value.0.gen), m, vals,
                     Eval(Expression(p).value.1, p.variant, p.env, m0))
    decreases |p.ahead|, 5
  {
    var neg := p.tok.Typ() == "-";
    var p1 := if p.tok.Typ() == "+" || neg then Advance(p).value else p;
    ExpressionUnfolds(p);
    SignedComputes(p1, neg, m, m0, vals);
  }

  /** `expression` after its optional sign: the first term, negated when
      the sign was `-`, then the loop. */
  lemma {:induction false} SignedComputes(p: P, neg: bool, m: Machine, m0: Machine, vals: seq<Word>)
    requires Term(p).Ok? && |vals| == p.gen.reg && Holds(m, vals) && SameFrame(m, m0)
    requires var p2 := Term(p).value.0;
      ExprTail(p2.(gen := if neg then GenNeg(p2.gen) else p2.gen),
               if neg then Minus(Term(p).value.1) else Term(p).value.1).Ok?
    ensures var p2 := Term(p).value.0;
      var r := ExprTail(p2.(gen := if neg then GenNeg(p2.gen) else p2.gen),
                        if neg then Minus(Term(p).value.1) else Term(p).value.1).value;
      Continues(p.gen, r.0.gen) && Computes(Emitted(p.gen, r.0.gen), m, vals, Eval(r.1, p.variant, p.env, m0))
    decreases |p.ahead|, 4
  {
    var r1 := Term(p).value;
    var p2 := r1.0;
    TermComputes(p, m, m0, vals);
    var g := if neg then GenNeg(p2.gen) else p2.gen;
    var left := if neg then Minus(r1.1) else r1.1;
    var p3 := p2.(gen := g);
    var r := ExprTail(p3, left).value;
    EmittedSplit(p2.gen, g, r.0.gen);
    EmittedSplit(p.gen, p2.gen, r.0.gen);
    var x := Eval(r1.1, p.variant, p.env, m0);
    var y := Eval(left, p.variant, p.env, m0);
    if x.Some? {
      var m1 := Exec(Emitted(p.gen, p2.gen), m).value;
      SignStep(p2.gen, neg, m1, vals, r1.1, p.variant, p.env, m0);
      assert p3.env == p.env;
      ExprTailComputes(p3, left, Exec(Emitted(p2.gen, g), m1).value, m0, vals);
    } else {
      ExprTailFails(p3, left, m0);
    }
    ComputesThree(Emitted(p.gen, p2.gen), Emitted(p2.gen, g), Emitted(g, r.0.gen), m,
                  vals, x, vals, y, vals, Eval(r.1, p.variant, p.env, m0));
  }

  /** `expression` is the optional sign, the first term, and the loop. */
  lemma ExpressionUnfolds(p: P)
    requires Expression(p).Ok?
    ensures var neg := p.tok.Typ() == "-";
      var p1 := if p.tok.Typ() == "+" || neg then Advance(p).value else p;
      && (p.tok.Typ() == "+" || neg ==> Advance(p).Ok?)
      && p1.gen == p.gen && p1.env == p.env && |p1.ahead| <= |p.ahead|
      && Term(p1).Ok?
      && var p2 := Term(p1).value.0;
      && var g := if neg then GenNeg(p2.gen) else p2.gen;
      && var left := if neg then Minus(Term(p1).value.1) else Term(p1).value.1;
      && ExprTail(p2.(gen := g), left).Ok?
      && Expression(p).value == ExprTail(p2.(gen := g), left).value
  {
  }

  /** The leading sign: `genNeg` on the first term, or nothing. */
  lemma SignStep(g: Gen, neg: bool, m: Machine, below: seq<Word>, e: Expr, v: Variant, env: Env, m0: Machine)
    requires Eval(e, v, env, m0).Some?
    requires g.reg == |below| + 1 && Holds(m, below + [Eval(e, v, env, m0).value])
    ensures var g' := if neg then GenNeg(g) else g;
      Continues(g, g') && Computes(Emitted(g, g'), m, below, Eval(if neg then Minus(e) else e, v, env, m0))
  {
    var t := Eval(e, v, env, m0).value;
    if neg {
      GenNegNegatesTop(g, m, below + [t]);
      assert (below + [t])[..|below|] == below;
    } else {
      assert Emitted(g, g) == [];
    }
  }

  /** The loop of `expression`. */
  lemma {:induction false} ExprTailComputes(p: P, left: Expr, m: Machine, m0: Machine, vals: seq<Word>)
    requires p.gen.reg == |vals| + 1 && ExprTail(p, left).Ok?
    requires Eval(left, p.variant, p.env, m0).Some? && Holds(m, vals + [Eval(left, p.variant, p.env, m0).value])
    requires SameFrame(m, m0)
    ensures Computes(Emitted(p.gen, ExprTail(p, left).value.0.gen), m, vals,
                     Eval(ExprTail(p, left).value.1, p.variant, p.env, m0))
    decreases |p.ahead|, 0
  {
    var op := p.tok.Typ();
    var a := Eval(left, p.variant, p.env, m0).value;
    if op == "+" || op == "-" {
      var p1 := Advance(p).value;
      var r1 := Term(p1).value;
      var p2 := r1.0;
      var g := GenAddSub(p2.gen, op);
      var p3 := p2.(gen := g);
      var e := Bin(op, left, r1.1);
      var r := ExprTail(p3, e).value;
      assert ExprTail(p, left).value == r;
      TermComputes(p1, m, m0, vals + [a]);
      EmittedSplit(p2.gen, g, r.0.gen);
      EmittedSplit(p.gen, p2.gen, r.0.gen);
      var x := Eval(r1.1, p.variant, p.env, m0);
      var y := Eval(e, p.variant, p.env, m0);
      var v := Eval(r.1, p.variant, p.env, m0);
      if x.Some? {
        var m1 := Exec(Emitted(p.gen, p2.gen), m).value;
        AddSubStep(p2.gen, op, m1, vals, left, r1.1, p.variant, p.env, m0);
        ExprTailComputes(p3, e, Exec(Emitted(p2.gen, g), m1).value, m0, vals);
      } else {
        ExprTailFails(p3, e, m0);
      }
      ComputesThree(Emitted(p.gen, p2.gen), Emitted(p2.gen, g), Emitted(g, r.0.gen), m,
                    vals + [a], x, vals, y, vals, v);
    } else {
      assert Emitted(p.gen, p.gen) == [];
      ComputesNothing(m, vals, a);
    }
  }

  /** Run from `m`, `test` leaves `vals`, the native stack and the globals
      as they were and a conditional jump with condition code `cc` is taken
      exactly when `c` is false; when there is no `c` the test faults. */
  ghost predicate Decides(test: seq<Instr>, cc: Cc, m: Machine, vals: seq<Word>, c: Option<bool>) {
    && Valid(m)
    && (c.None? ==> Exec(test, m).None?)
    && (c.Some? ==> && Exec(test, m).Some?
                    && Holds(Exec(test, m).value, vals)
                    && SameFrame(Exec(test, m).value, m)
                    && (Taken(cc, Exec(test, m).value.flags) <==> !c.value))
  }

  /** `code` ends in a conditional jump to `target`, and what precedes the
      jump decides `c` for it. */
  ghost predicate JumpsUnless(code: seq<Instr>, target: int, m: Machine, vals: seq<Word>, c: Option<bool>) {
    && |code| >= 2 && code[|code| - 1].Jcc? && code[|code| - 1].target == target
    && Decides(code[..|code| - 1], code[|code| - 1].cc, m, vals, c)
  }

  /** Dropping the top of the value stack. */
  lemma HoldsBelow(m: Machine, vals: seq<Word>, v: Word)
    requires Holds(m, vals + [v])
    ensures Holds(m, vals)
  {
    assert m.regs[..|vals|] == m.regs[..|vals| + 1][..|vals|];
    assert (vals + [v])[..|vals|] == vals;
  }

  /** A fragment that computes a value, then a test on the stack it
      leaves. */
  lemma DecidesAfter(code: seq<Instr>, test: seq<Instr>, cc: Cc, m: Machine, below: seq<Word>,
                     x: Option<Word>, vals: seq<Word>, c: Option<bool>)
    requires Computes(code, m, below, x)
    requires x.None? ==> c.None?
    requires x.Some? ==> Decides(test, cc, Exec(code, m).value, vals, c)
    ensures Decides(code + test, cc, m, vals, c)
  {
    ExecAppend(code, test, m);
  }

  /** `test r, 1` and `jz`: taken when the top value is even. */
  lemma OddStep(g: Gen, m: Machine, vals: seq<Word>, v: Word)
    requires g.reg == |vals| + 1 && Holds(m, vals + [v])
    ensures Emitted(g, GenOdd(g)) == [TestOne(g.reg - 1), Jcc(Z, g.labelid)]
    ensures Decides([TestOne(g.reg - 1)], Z, m, vals, Some(v % 2 == 1))
  {
    GenOddJumpsWhenEven(g, m, vals + [v]);
    ExecOne(TestOne(g.reg - 1), m);
    HoldsBelow(m, vals, v);
  }

  /** `cmp` and the inverse jump: taken when the comparison is false. */
  lemma CompareStep(g: Gen, op: string, m: Machine, vals: seq<Word>, a: Word, b: Word)
    requires op in {"=", "#", "<", "<=", ">", ">="}
    requires g.reg == |vals| + 2 && Holds(m, vals + [a] + [b])
    ensures GenCond(g, op).Ok?
    ensures Emitted(g, GenCond(g, op).value) == [Cmp(g.reg - 2, g.reg - 1), Jcc(InverseJump(op).value, g.labelid)]
    ensures Decides([Cmp(g.reg - 2, g.reg - 1)], InverseJump(op).value, m, vals, Some(Compare(op, a, b)))
  {
    TopTwo(vals, a, b);
    GenCondJumpsWhenFalse(g, op, m, vals + [a] + [b]);
    ExecOne(Cmp(g.reg - 2, g.reg - 1), m);
    HoldsBelow(m, vals + [a], b);
    HoldsBelow(m, vals, a);
  }

  /** The condition `odd e`: the code of `e`, then `test` and `jz`. */
  lemma {:induction false} OddDecides(p: P, m: Machine, m0: Machine, vals: seq<Word>)
    requires p.tok.Typ() == "odd" && Condition(p).Ok?
    requires |vals| == p.gen.reg && Holds(m, vals) && SameFrame(m, m0)
    ensures var r := Condition(p).value;
      var code := Emitted(p.gen, r.0.gen);
      && |code| >= 2 && code[|code| - 1] == Jcc(Z, p.gen.labelid + 1)
      && JumpsUnless(code, p.gen.labelid + 1, m, vals, EvalCond(r.1, p.variant, p.env, m0))
  {
    var p0 := p.(gen := AddLabel(p.gen));
    var p1 := Advance(p0).value;
    var r1 := Expression(p1).value;
    var p2 := r1.0;
    var g := GenOdd(p2.gen);
    var r := Condition(p).value;
    assert r == (p2.(gen := g), Odd(r1.1));
    ExpressionComputes(p1, m, m0, vals);
    var code1 := Emitted(p.gen, p2.gen);
    var n := p2.gen.reg - 1;
    var x := Eval(r1.1, p.variant, p.env, m0);
    if x.Some? {
      OddStep(p2.gen, Exec(code1, m).value, vals, x.value);
    }
    assert Emitted(p2.gen, g) == [TestOne(n), Jcc(Z, p.gen.labelid + 1)];
    EmittedSplit(p.gen, p2.gen, g);
    var code := Emitted(p.gen, g);
    assert code[..|code| - 1] == code1 + [TestOne(n)];
    DecidesAfter(code1, [TestOne(n)], Z, m, vals, x, vals, EvalCond(r.1, p.variant, p.env, m0));
  }

  /** A comparison `l op r`: the code of `l`, of `r`, then `cmp` and the
      inverse jump. */
  lemma {:induction false} RelDecides(p: P, m: Machine, m0: Machine, vals: seq<Word>)
    requires p.tok.Typ() != "odd" && Condition(p).Ok?
    requires |vals| == p.gen.reg && Holds(m, vals) && SameFrame(m, m0)
    ensures var r := Condition(p).value;
      JumpsUnless(Emitted(p.gen, r.0.gen), p.gen.labelid + 1, m, vals, EvalCond(r.1, p.variant, p.env, m0))
  {
    var p0 := p.(gen := AddLabel(p.gen));
    RelUnfolds(p);
    RelParts(p, p0, m, m0, vals);
  }

  /** `condition` without `odd`: two expressions around the operator. */
  lemma RelUnfolds(p: P)
    requires p.tok.Typ() != "odd" && Condition(p).Ok?
    ensures var p0 := p.(gen := AddLabel(p.gen));
      && Expression(p0).Ok? && Advance(Expression(p0).value.0).Ok?
      && var op := Expression(p0).value.0.tok.Typ();
      && Expression(Advance(Expression(p0).value.0).value).Ok?
      && var r2 := Expression(Advance(Expression(p0).value.0).value).value;
      && op in {"=", "#", "<", "<=", ">", ">="}
      && r2.0.gen.reg >= 2
      && GenCond(r2.0.gen, op).Ok?
      && Condition(p).value == (r2.0.(gen := GenCond(r2.0.gen, op).value),
                                Rel(op, Expression(p0).value.1, r2.1))
  {
  }

  /** The comparison with its parts named. */
  lemma RelParts(p: P, p0: P, m: Machine, m0: Machine, vals: seq<Word>)
    requires p0 == p.(gen := AddLabel(p.gen))
    requires Expression(p0).Ok? && Advance(Expression(p0).value.0).Ok?
    requires Expression(Advance(Expression(p0).value.0).value).Ok?
    requires Expression(p0).value.0.tok.Typ() in {"=", "#", "<", "<=", ">", ">="}
    requires Expression(Advance(Expression(p0).value.0).value).value.0.gen.reg >= 2
    requires |vals| == p.gen.reg && Holds(m, vals) && SameFrame(m, m0)
    ensures var r1 := Expression(p0).value;
      var op := r1.0.tok.Typ();
      var r2 := Expression(Advance(r1.0).value).value;
      var g := GenCond(r2.0.gen, op).value;
      JumpsUnless(Emitted(p.gen, g), p.gen.labelid + 1, m, vals, EvalCond(Rel(op, r1.1, r2.1), p.variant, p.env, m0))
  {
    var r1 := Expression(p0).value;
    var op := r1.0.tok.Typ();
    var r2 := Expression(Advance(r1.0).value).value;
    var p2 := r2.0;
    RelCore(p0, m, m0, vals);
    GenCondCode(p2.gen, op);
    RelShape(p.gen, p2.gen, GenCond(p2.gen, op).value, InverseJump(op).value, p.gen.labelid + 1, m, vals,
             EvalCond(Rel(op, r1.1, r2.1), p.variant, p.env, m0));
  }

  /** The code `genCond` appends. */
  lemma GenCondCode(g: Gen, op: string)
    requires g.reg >= 2 && op in {"=", "#", "<", "<=", ">", ">="}
    ensures GenCond(g, op).Ok?
    ensures GenCond(g, op).value.code == g.code + [Cmp(g.reg - 2, g.reg - 1), Jcc(InverseJump(op).value, g.labelid)]
  {
  }

  /** The two operands of a comparison and the `cmp`. */
  lemma {:induction false} RelCore(p: P, m: Machine, m0: Machine, vals: seq<Word>)
    requires Expression(p).Ok? && Advance(Expression(p).value.0).Ok?
    requires Expression(Advance(Expression(p).value.0).value).Ok?
    requires Expression(p).value.0.tok.Typ() in {"=", "#", "<", "<=", ">", ">="}
    requires |vals| == p.gen.reg && Holds(m, vals) && SameFrame(m, m0)
    ensures var r1 := Expression(p).value;
      var op := r1.0.tok.Typ();
      var r2 := Expression(Advance(r1.0).value).value;
      Continues(p.gen, r2.0.gen) &&
      Decides(Emitted(p.gen, r2.0.gen) + [Cmp(r2.0.gen.reg - 2, r2.0.gen.reg - 1)], InverseJump(op).value,
              m, vals, EvalCond(Rel(op, r1.1, r2.1), p.variant, p.env, m0))
  {
    var r1 := Expression(p).value;
    var op := r1.0.tok.Typ();
    var p1 := Advance(r1.0).value;
    var r2 := Expression(p1).value;
    ExpressionComputes(p, m, m0, vals);
    var code1, code2 := Emitted(p.gen, p1.gen), Emitted(p1.gen, r2.0.gen);
    var test := [Cmp(r2.0.gen.reg - 2, r2.0.gen.reg - 1)];
    var c := EvalCond(Rel(op, r1.1, r2.1), p.variant, p.env, m0);
    var x := Eval(r1.1, p.variant, p.env, m0);
    if x.Some? {
      var m1 := Exec(code1, m).value;
      ExpressionComputes(p1, m1, m0, vals + [x.value]);
      var y := Eval(r2.1, p.variant, p.env, m0);
      if y.Some? {
        CompareStep(r2.0.gen, op, Exec(code2, m1).value, vals, x.value, y.value);
      }
      DecidesAfter(code2, test, InverseJump(op).value, m1, vals + [x.value], y, vals, c);
    }
    DecidesAfter(code1, code2 + test, InverseJump(op).value, m, vals, x, vals, c);
    EmittedSplit(p.gen, p1.gen, r2.0.gen);
    assert code1 + (code2 + test) == Emitted(p.gen, r2.0.gen) + test;
  }

  /** The code of a comparison is the operands' code and the `cmp`, which
      decide the condition, followed by the jump. */
  lemma RelShape(g: Gen, g2: Gen, g3: Gen, cc: Cc, target: int, m: Machine, vals: seq<Word>, c: Option<bool>)
    requires Continues(g, g2) && g2.reg >= 2
    requires g3.code == g2.code + [Cmp(g2.reg - 2, g2.reg - 1), Jcc(cc, target)]
    requires Decides(Emitted(g, g2) + [Cmp(g2.reg - 2, g2.reg - 1)], cc, m, vals, c)
    ensures Continues(g, g3)
    ensures JumpsUnless(Emitted(g, g3), target, m, vals, c)
  {
    assert Continues(g2, g3);
    EmittedSplit(g, g2, g3);
    var code := Emitted(g, g3);
    assert code[..|code| - 1] == Emitted(g, g2) + [Cmp(g2.reg - 2, g2.reg - 1)];
  }

  /** `condition` emits a test and one conditional jump to the label it
      pushed. The test faults exactly when the condition has no value;
      otherwise it keeps the value stack, the native stack and the globals,
      and the jump is taken exactly when the condition is false, so the
      code after it runs exactly when the condition holds. */
  lemma ConditionDecides(p: P, m: Machine, m0: Machine, vals: seq<Word>)
    requires Condition(p).Ok? && |vals| == p.gen.reg && Holds(m, vals) && SameFrame(m, m0)
    ensures var r := Condition(p).value;
      JumpsUnless(Emitted(p.gen, r.0.gen), p.gen.labelid + 1, m, vals, EvalCond(r.1, p.variant, p.env, m0))
  {
    if p.tok.Typ() == "odd" {
      OddDecides(p, m, m0, vals);
    } else {
      RelDecides(p, m, m0, vals);
    }
  }

  /** `odd (0-7)/2` in both compilers: as written the quotient is
      2147483644, which is even, so the condition is false; corrected it is
      -3 and the condition is true. */
  lemma OddQuotientDependsOnVariant(env: Env, m: Machine)
    ensures var e := Bin("/", Bin("-", Lit(0), Lit(7)), Lit(2));
      && Eval(e, AsWritten, env, m) == Some(2147483644)
      && Eval(e, Corrected, env, m) == Some(-3)
      && EvalCond(Odd(e), AsWritten, env, m) == Some(false)
      && EvalCond(Odd(e), Corrected, env, m) == Some(true)
  {
    assert Eval(Bin("-", Lit(0), Lit(7)), AsWritten, env, m) == Some(-7);
    assert Eval(Bin("-", Lit(0), Lit(7)), Corrected, env, m) == Some(-7);
    assert Unsigned(-7) == 4294967289;
    assert TruncDiv(4294967289, 2) == 2147483644;
    assert TruncDiv(-7, 2) == -3;
  }

  /** The value of `(a op1 b) op2 c` with `+` and `-`. */
  lemma SumValue(a: int, op1: string, b: int, op2: string, c: int, v: Variant, env: Env, m: Machine)
    requires op1 in {"+", "-"} && op2 in {"+", "-"}
    ensures var x := Wrap(if op1 == "-" then Wrap(a) - Wrap(b) else Wrap(a) + Wrap(b));
      Eval(Bin(op2, Bin(op1, Lit(a), Lit(b)), Lit(c)), v, env, m)
        == Some(Wrap(if op2 == "-" then x - Wrap(c) else x + Wrap(c)))
  {
    var x := Wrap(if op1 == "-" then Wrap(a) - Wrap(b) else Wrap(a) + Wrap(b));
    assert Eval(Bin(op1, Lit(a), Lit(b)), v, env, m) == Some(x);
  }

  /** The code for `a op1 b op2 c ;`, with `op1` and `op2` among `+` and
      `-`, pushes `(a op1 b) op2 c`: the first operator is applied first,
      each result wrapped to 32 bits. */
  lemma ExpressionValueAssociatesLeft(p: P, a: int, op1: string, b: int, op2: string, c: int,
                                      m: Machine, vals: seq<Word>)
    requires op1 in {"+", "-"} && op2 in {"+", "-"}
    requires p.tok == Integer(a)
    requires Upcoming(p, [Operator(op1), Integer(b), Operator(op2), Integer(c), Operator(";")])
    requires p.gen.reg + 2 <= PoolSize && |vals| == p.gen.reg && Holds(m, vals)
    ensures Expression(p).Ok?
    ensures var x := Wrap(if op1 == "-" then Wrap(a) - Wrap(b) else Wrap(a) + Wrap(b));
      Computes(Emitted(p.gen, Expression(p).value.0.gen), m, vals,
               Some(Wrap(if op2 == "-" then x - Wrap(c) else x + Wrap(c))))
  {
    ExpressionAssociatesLeft(p, a, op1, b, op2, c);
    ExpressionComputes(p, m, m, vals);
    SumValue(a, op1, b, op2, c, p.variant, p.env, m);
  }
}
