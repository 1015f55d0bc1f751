/** Scopes and symbol tables: `check`, `declare` and the scope bookkeeping of
    `block` (parser.go:158-191, 308-313, 361; plzero.go:175-208, 318-323, 374
    repeat the same rules). There is one global scope, named by the empty
    string, and one scope per procedure name. */
module Scopes {
  import opened Outcomes

  datatype Kind = Const | Var

  /** `symbol`: kind, value (for a constant) and address. */
  datatype Symbol = Symbol(kind: Kind, val: int, addr: int)

  /** `procedure`: entry address, number of locals so far, symbol table. */
  datatype Procedure = Procedure(addr: int, nlocal: int, sym: map<string, Symbol>)

  /** The compiler's scope state: the scope table, the name of the scope whose
      body is being compiled, and the next free global data address. */
  datatype Env = Env(scopes: map<string, Procedure>, active: string, datap: int)

  const Global: string := ""

  /** `scopes[scope].sym[name]` with Go's zero values: a scope that does not
      exist has an empty table. */
  function Lookup(env: Env, scope: string, name: string): Option<Symbol> {
    if scope in env.scopes && name in env.scopes[scope].sym
    then Some(env.scopes[scope].sym[name])
    else None
  }

  /** Where a name resolves: its symbol and whether it is addressed as a
      global. */
  datatype Binding = Binding(sym: Symbol, global: bool)

  /** Name resolution: the active scope first, then the global scope. A name
      found in the active scope is a local unless the active scope is the
      global one. */
  function Resolve(env: Env, name: string): Option<Binding> {
    match Lookup(env, env.active, name)
    case Some(s) => Some(Binding(s, env.active == Global))
    case None =>
      match Lookup(env, Global, name)
      case Some(g) => Some(Binding(g, true))
      case None => None
  }

  /** `check`: a use of `name` (an assignment when `assignOp`). Succeeds
      exactly when the name resolves and is not a constant being assigned;
      otherwise fails with the source's message. */
  function Check(env: Env, name: string, assignOp: bool): (r: Result<(), string>)
    ensures r.Ok? <==> Resolve(env, name).Some?
                       && !(assignOp && Resolve(env, name).value.sym.kind == Const)
    ensures Resolve(env, name).None? ==> r == Err(name + " undeclared")
    ensures Resolve(env, name).Some? && r.Err? ==> r == Err(name + " is constant")
  {
    var local := Lookup(env, env.active, name);
    var global := Lookup(env, Global, name);
    if local.Some? then
      if assignOp && local.value.kind == Const then Err(name + " is constant") else Ok(())
    else if global.Some? then
      if assignOp && global.value.kind == Const then Err(name + " is constant") else Ok(())
    else
      Err(name + " undeclared")
  }

  /** `declare`: adds `name` to `scope`, which `block` has created before any
      declaration. A global takes the next data address and advances it by a
      word, and its initial value is emitted as data (the second component);
      a local takes the frame offset `4 * nlocal` and counts one more local. */
  function Declare(env: Env, scope: string, kind: Kind, name: string, val: int)
    : (r: Result<(Env, Option<int>), string>)
    requires scope in env.scopes
    ensures r.Err? <==> name in env.scopes[scope].sym
    ensures r.Err? ==> r.error == name + " redeclared"
    ensures r.Ok? ==> var (env', data) := r.value;
      && env'.active == env.active
      && env'.scopes.Keys == env.scopes.Keys
      && (forall s :: s in env.scopes && s != scope ==> env'.scopes[s] == env.scopes[s])
      && env'.scopes[scope].addr == env.scopes[scope].addr
      && env'.scopes[scope].sym.Keys == env.scopes[scope].sym.Keys + {name}
      && (forall n :: n in env.scopes[scope].sym ==> env'.scopes[scope].sym[n] == env.scopes[scope].sym[n])
      && env'.scopes[scope].sym[name].kind == kind
      && env'.scopes[scope].sym[name].val == val
      && (scope == Global ==>
            && env'.scopes[scope].sym[name].addr == env.datap
            && env'.datap == env.datap + 4
            && env'.scopes[scope].nlocal == env.scopes[scope].nlocal
            && data == Some(val))
      && (scope != Global ==>
            && env'.scopes[scope].sym[name].addr == 4 * env.scopes[scope].nlocal
            && env'.scopes[scope].nlocal == env.scopes[scope].nlocal + 1
            && env'.datap == env.datap
            && data == None)
  {
    var proc := env.scopes[scope];
    if name in proc.sym then Err(name + " redeclared")
    else if scope == Global then
      var proc' := proc.(sym := proc.sym[name := Symbol(kind, val, env.datap)]);
      Ok((env.(scopes := env.scopes[scope := proc'], datap := env.datap + 4), Some(val)))
    else
      var addr := proc.nlocal * 4;
      var proc' := proc.(nlocal := proc.nlocal + 1, sym := proc.sym[name := Symbol(kind, val, addr)]);
      Ok((env.(scopes := env.scopes[scope := proc']), None))
  }

  /** The scope part of `block`: a scope record (entry address `pc`, empty
      table) is created and made active only if none exists; an existing scope
      is never reset. */
  function EnterBlock(env: Env, scope: string, pc: int): (env': Env)
    ensures scope in env'.scopes
    ensures env'.datap == env.datap
    ensures env'.scopes.Keys == env.scopes.Keys + {scope}
    ensures forall s :: s in env.scopes ==> env'.scopes[s] == env.scopes[s]
    ensures scope !in env.scopes ==>
      env'.scopes[scope] == Procedure(pc, 0, map[]) && env'.active == scope
    ensures scope in env.scopes ==> env'.active == env.active
  {
    if scope in env.scopes then env
    else env.(scopes := env.scopes[scope := Procedure(pc, 0, map[])], active := scope)
  }

  /** The end of `block` as written: the global scope becomes active again,
      whatever scope was active when the block was entered. */
  function LeaveBlock(env: Env): (env': Env)
    ensures env'.active == Global
    ensures env'.scopes == env.scopes && env'.datap == env.datap
  {
    env.(active := Global)
  }

  /** The end of `block` with the enclosing scope restored: `enclosing` is
      the scope that was active when the block was entered. */
  function LeaveBlockRestoring(env: Env, enclosing: string): (env': Env)
    ensures env'.active == enclosing
    ensures env'.scopes == env.scopes && env'.datap == env.datap
  {
    env.(active := enclosing)
  }

  /** The addressing invariant: no two globals share an address and all lie
      below `datap`; in every procedure the locals have distinct word offsets
      `4*k` with `k < nlocal`. */
  ghost predicate WellFormed(env: Env) {
    && (Global in env.scopes ==> GlobalsBelow(env.scopes[Global], env.datap))
    && (forall s :: s in env.scopes && s != Global ==> LocalsDense(env.scopes[s]))
  }

  ghost predicate GlobalsBelow(p: Procedure, datap: int) {
    && (forall n :: n in p.sym ==> p.sym[n].addr < datap)
    && (forall n, m :: n in p.sym && m in p.sym && n != m ==> p.sym[n].addr != p.sym[m].addr)
  }

  ghost predicate LocalsDense(p: Procedure) {
    && 0 <= p.nlocal
    && (forall n :: n in p.sym ==> 0 <= p.sym[n].addr < 4 * p.nlocal && p.sym[n].addr % 4 == 0)
    && (forall n, m :: n in p.sym && m in p.sym && n != m ==> p.sym[n].addr != p.sym[m].addr)
  }
}

module ScopeFacts {
  import opened Outcomes
  import opened Scopes

  /** A local variable shadows a global constant of the same name, so the
      local may be assigned; the global constant itself may not. */
  lemma LocalShadowsGlobalConstant(env: Env, name: string, local: Symbol, global: Symbol)
    requires env.active != Global && env.active in env.scopes && Global in env.scopes
    requires env.scopes[env.active].sym == map[name := local] && local.kind == Var
    requires env.scopes[Global].sym == map[name := global] && global.kind == Const
    ensures Check(env, name, true) == Ok(())
    ensures Resolve(env, name) == Some(Binding(local, false))
    ensures Check(env.(active := Global), name, true) == Err(name + " is constant")
  {
  }

  /** Declaring keeps the addressing invariant: globals stay distinct and
      below `datap`, locals of one procedure never share an offset. */
  lemma DeclarePreservesWellFormed(env: Env, scope: string, kind: Kind, name: string, val: int)
    requires scope in env.scopes
    requires Declare(env, scope, kind, name, val).Ok?
    ensures WellFormed(env) ==> WellFormed(Declare(env, scope, kind, name, val).value.0)
  {
    if WellFormed(env) {
      DeclareKeepsWellFormed(env, scope, kind, name, val);
    }
  }

  lemma DeclareKeepsWellFormed(env: Env, scope: string, kind: Kind, name: string, val: int)
    requires scope in env.scopes && WellFormed(env)
    requires Declare(env, scope, kind, name, val).Ok?
    ensures WellFormed(Declare(env, scope, kind, name, val).value.0)
  {
    var env' := Declare(env, scope, kind, name, val).value.0;
    var p, p' := env.scopes[scope], env'.scopes[scope];
    if scope == Global {
      GlobalsStayBelow(p, p', name, env.datap);
    } else {
      LocalsStayDense(p, p', name);
      if Global in env.scopes {
        assert env'.scopes[Global] == env.scopes[Global];
      }
    }
  }

  /** A global added at `datap` keeps the globals distinct and below the
      advanced `datap`. */
  lemma GlobalsStayBelow(p: Procedure, p': Procedure, name: string, datap: int)
    requires GlobalsBelow(p, datap) && name !in p.sym
    requires p'.sym.Keys == p.sym.Keys + {name}
    requires forall n :: n in p.sym ==> p'.sym[n] == p.sym[n]
    requires p'.sym[name].addr == datap
    ensures GlobalsBelow(p', datap + 4)
  {
    forall n, m | n in p'.sym && m in p'.sym && n != m
      ensures p'.sym[n].addr != p'.sym[m].addr
    {
      if n == name {
        assert p'.sym[m].addr < datap;
      } else if m == name {
        assert p'.sym[n].addr < datap;
      }
    }
  }

  /** A local added at `4 * nlocal`, with `nlocal` advanced, keeps the
      frame offsets distinct word offsets inside the frame. */
  lemma LocalsStayDense(p: Procedure, p': Procedure, name: string)
    requires LocalsDense(p) && name !in p.sym
    requires p'.sym.Keys == p.sym.Keys + {name}
    requires forall n :: n in p.sym ==> p'.sym[n] == p.sym[n]
    requires p'.sym[name].addr == 4 * p.nlocal && p'.nlocal == p.nlocal + 1
    ensures LocalsDense(p')
  {
    forall n, m | n in p'.sym && m in p'.sym && n != m
      ensures p'.sym[n].addr != p'.sym[m].addr
    {
      if n == name {
        assert p'.sym[m].addr < 4 * p.nlocal;
      } else if m == name {
        assert p'.sym[n].addr < 4 * p.nlocal;
      }
    }
  }

  /** Two locals declared one after the other in a procedure get the offsets
      `4*k` and `4*(k+1)`; two globals get `datap` and `datap + 4`. */
  lemma SuccessiveDeclarations(env: Env, scope: string, a: string, b: string, kind: Kind)
    requires scope in env.scopes && a != b
    requires a !in env.scopes[scope].sym && b !in env.scopes[scope].sym
    ensures var e1 := Declare(env, scope, kind, a, 0).value.0;
      && Declare(e1, scope, kind, b, 0).Ok?
      && var e2 := Declare(e1, scope, kind, b, 0).value.0;
      && (scope == Global ==>
            e2.scopes[scope].sym[a].addr == env.datap
            && e2.scopes[scope].sym[b].addr == env.datap + 4
            && e2.datap == env.datap + 8)
      && (scope != Global ==>
            e2.scopes[scope].sym[a].addr == 4 * env.scopes[scope].nlocal
            && e2.scopes[scope].sym[b].addr == 4 * env.scopes[scope].nlocal + 4
            && e2.scopes[scope].nlocal == env.scopes[scope].nlocal + 2)
  {
  }

  /** Entering a block twice is the same as entering it once: the second
      entry neither resets the scope nor changes the active scope. */
  lemma EnterBlockIdempotent(env: Env, scope: string, pc: int, pc': int)
    ensures EnterBlock(EnterBlock(env, scope, pc), scope, pc') == EnterBlock(env, scope, pc)
  {
  }

  lemma EnterBlockPreservesWellFormed(env: Env, scope: string, pc: int)
    ensures WellFormed(env) ==> WellFormed(EnterBlock(env, scope, pc))
  {
  }

  /** Restoring the enclosing scope on block exit: as long as the nested block
      changed neither the enclosing scope's table nor the global table, every
      name resolves exactly as it did before the nested block. */
  lemma RestoringKeepsResolution(env: Env, inner: Env, name: string)
    requires inner.scopes.Keys >= env.scopes.Keys
    requires env.active in env.scopes ==> inner.scopes[env.active] == env.scopes[env.active]
    requires Global in env.scopes ==> inner.scopes[Global] == env.scopes[Global]
    requires env.active !in env.scopes ==> env.active !in inner.scopes
    requires Global !in env.scopes ==> Global !in inner.scopes
    ensures Resolve(LeaveBlockRestoring(inner, env.active), name) == Resolve(env, name)
  {
  }
}

/** The block exit as written forgets the enclosing procedure. */
module ScopeFindings {
  import opened Outcomes
  import opened Scopes
  import opened ScopeFacts

  /** The scope operations `block` performs for
        var x; procedure p; var y; procedure q; x := 1; y := 2; call p .
      up to the nested procedure `q`. */
  function BeforeInnerBlock(): Env {
    var e0 := EnterBlock(Env(map[], Global, 1000), Global, 0);
    var e1 := Declare(e0, Global, Var, "x", 0).value.0;
    var e2 := EnterBlock(e1, "p", 0);
    Declare(e2, "p", Var, "y", 0).value.0
  }

  /** As written, leaving the nested block of `q` makes the global scope
      active, so the assignment `y := 2` in the body of `p` is rejected with
      "y undeclared" although `y` is a local of `p`. */
  lemma NestedProcedureHidesLocals()
    ensures Check(BeforeInnerBlock(), "y", true) == Ok(())
    ensures Check(LeaveBlock(EnterBlock(BeforeInnerBlock(), "q", 0)), "y", true)
            == Err("y undeclared")
  {
    var env := BeforeInnerBlock();
    assert env.scopes[Global].sym.Keys == {"x"};
    assert "y" in env.scopes["p"].sym;
    var left := LeaveBlock(EnterBlock(env, "q", 0));
    assert left.scopes[Global] == env.scopes[Global];
    assert Lookup(left, Global, "y") == None;
    assert Resolve(left, "y") == None;
    assert "y" + " undeclared" == "y undeclared";
  }

  /** Restoring the scope that was active on entry to `q`'s block keeps `y`
      visible in the body of `p`. */
  lemma RestoredScopeKeepsLocals()
    ensures Check(LeaveBlockRestoring(EnterBlock(BeforeInnerBlock(), "q", 0), "p"), "y", true)
            == Ok(())
  {
    var env := BeforeInnerBlock();
    RestoringKeepsResolution(env, EnterBlock(env, "q", 0), "y");
  }
}
