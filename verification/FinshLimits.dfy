/** Where the compiler of MDK/components/finsh/finsh_compiler.c is right, and where it is not: for every
    operator the exact condition under which its code computes what the expression means, and for whole
    expressions the stack slots their code leaves behind. */
module FinshLimits {
  import opened FinshLang
  import opened FinshTree
  import opened FinshCorrect

  // The tree of e, checked, compiled and run on an empty stack, leaves e's value and e's memory.
  ghost predicate Right(sys: System, e: Expr, m: Memory)
    requires Scoped(e) && Eval(sys, e, m).Some?
  {
    var (v, m') := Eval(sys, e, m).value;
    ExecAll(sys, Gen(Check(Lower(e, Nil), false)), State([], m)) == Some(State([v], m'))
  }

  lemma {:induction false} RightIsCode(sys: System, e: Expr, m: Memory)
    requires Scoped(e) && Eval(sys, e, m).Some?
    ensures Gen(Check(Lower(e, Nil), false)) == Code(e)
    ensures var (v, m') := Eval(sys, e, m).value;
            Right(sys, e, m) <==> ExecAll(sys, Code(e), State([], m)) == Some(State([v], m'))
  {
    hide ExecAll, Eval, Code;
    TreeCode(e, Nil);
    NilCode();
  }

  lemma {:induction false} SoundIsRight(sys: System, e: Expr, m: Memory)
    requires Scoped(e) && Eval(sys, e, m).Some? && Sound(e)
    ensures Right(sys, e, m)
  {
    hide Eval, Code, Sound, Right;
    RightIsCode(sys, e, m);
    CodeMeaning(sys, e, State([], m), []);
    assert Code(e) + [] == Code(e) && [] + [Eval(sys, e, m).value.0] == [Eval(sys, e, m).value.0];
  }

  // ---- Stack slots, for every expression ----

  // How many slots an instruction adds.
  function Effect(i: Instr): int
  {
    match i
    case Noop => 0
    case Binary(_) => -1
    case Flip => 0
    case Push(_) => 1
    case Fetch(_) => 1
    case StoreTop => -1
    case Pop => -1
    case Syscall(n) => -(n as int)
    case FetchTop => 0
  }

  function Net(code: seq<Instr>): int
    decreases |code|
  {
    if code == [] then 0 else Effect(code[0]) + Net(code[1..])
  }

  lemma {:induction false} NetConcat(a: seq<Instr>, b: seq<Instr>)
    ensures Net(a + b) == Net(a) + Net(b)
    decreases |a|
  {
    if a == [] {
      assert a + b == b;
    } else {
      NetConcat(a[1..], b);
      assert (a + b)[1..] == a[1..] + b;
    }
  }

  // Code that comes to its end has added exactly its net effect.
  lemma {:induction false} NetOfRun(sys: System, code: seq<Instr>, st: State)
    requires ExecAll(sys, code, st).Some?
    ensures |ExecAll(sys, code, st).value.stack| == |st.stack| + Net(code)
    decreases |code|
  {
    hide Operate, Load, Store;
    if code != [] {
      NetOfRun(sys, code[1..], Exec(sys, code[0], st).value);
    }
  }

  // The slots that the code of an expression leaves beyond the one for its value: one for each operator
  // of two operands that is dropped, less one for each variable that yields no code.
  function Surplus(e: Expr): int
    decreases e
  {
    match e
    case Lit(_, _) => 0
    case Read(id) => Missing(id)
    case Bin(_, a, b) => Surplus(a) + Surplus(b) + (if StartsWithCall(a) then 1 else 0)
    case Not(a) => Surplus(a)
    case Assign(lv, e') => SurplusOfPlace(lv) + Surplus(e') + (if lv.LDeref? && StartsWithCall(lv.p) then 1 else 0)
    case PreStep(lv, _) => SurplusOfPlace(lv)
    case PostStep(id, _) => Missing(id)
    case Deref(p) => Surplus(p)
    case AddrOf(lv) => SurplusOfPlace(lv)
    case Call(_, args) => SurplusOfAll(args) + Length(args) / 0x100 * 0x100
  }

  function SurplusOfPlace(lv: LValue): int
    decreases lv
  {
    match lv
    case LVar(id) => Missing(id)
    case LDeref(p) => Surplus(p)
  }

  function SurplusOfAll(es: Exprs): int
    decreases es
  {
    match es
    case Done => 0
    case More(e, rest) => Surplus(e) + SurplusOfAll(rest)
  }

  function Missing(id: Id): int
  {
    if IsVariable(id) && !IsVoidPointer(id) then 0 else -1
  }

  lemma {:induction false} NetOfNothing()
    ensures Net([]) == 0
  {
  }

  lemma {:induction false} NetOfShort(i: Instr, j: Instr)
    ensures Net([i]) == Effect(i) && Net([i, j]) == Effect(i) + Effect(j)
  {
    NetOfNothing();
    assert [i][1..] == [] && [j][1..] == [] && [i, j][1..] == [j];
    assert Net([j]) == Effect(j);
  }

  lemma {:induction false} NetOfSteps(id: Id, op: BinOp)
    ensures Net(PreCode(id, op)) == 0 && Net(PostCode(id, op)) == 0
  {
    hide Net;
    var a := StepAddress(id);
    assert PreCode(id, op) == [Fetch(a), Push(1)] + ([Binary(op), StoreTop] + [FetchTop]);
    assert PostCode(id, op) == [Push(a), Fetch(a)] + ([Push(1), Binary(op)] + [StoreTop, Pop]);
    NetConcat([Fetch(a), Push(1)], [Binary(op), StoreTop] + [FetchTop]);
    NetConcat([Binary(op), StoreTop], [FetchTop]);
    NetConcat([Push(a), Fetch(a)], [Push(1), Binary(op)] + [StoreTop, Pop]);
    NetConcat([Push(1), Binary(op)], [StoreTop, Pop]);
    NetOfShort(Fetch(a), Push(1));
    NetOfShort(Binary(op), StoreTop);
    NetOfShort(FetchTop, FetchTop);
    NetOfShort(Push(a), Fetch(a));
    NetOfShort(Push(1), Binary(op));
    NetOfShort(StoreTop, Pop);
  }

  lemma {:induction false} NetOfCode(e: Expr)
    ensures Net(Code(e)) == 1 + Surplus(e)
    decreases e
  {
    hide Net;
    NetOfNothing();
    match e
    case Lit(_, v) => NetOfShort(Push(v), Pop);
    case Read(id) => if HasCode(id) { NetOfShort(Fetch(Address(id)), Pop); }
    case Bin(op, a, b) =>
      NetOfCode(a);
      NetOfCode(b);
      NetConcat(Code(a), Code(b));
      NetConcat(Code(a) + Code(b), Typed(TypeOf(a), [Binary(op)]));
      NetOfShort(Binary(op), Pop);
    case Not(a) =>
      NetOfCode(a);
      NetConcat(Code(a), Typed(TypeOf(a), [Flip]));
      NetOfShort(Flip, Pop);
    case Assign(lv, e') =>
      NetOfPlace(lv);
      NetOfCode(e');
      NetConcat(CodePlace(lv), Code(e'));
      NetConcat(CodePlace(lv) + Code(e'), Typed(TypeOfPlace(lv), [StoreTop, FetchTop]));
      NetOfShort(StoreTop, FetchTop);
    case PreStep(lv, up) =>
      NetOfPlace(lv);
      NetConcat(CodePlace(lv), if lv.LVar? then PreCode(lv.id, Delta(up)) else []);
      if lv.LVar? { NetOfSteps(lv.id, Delta(up)); }
    case PostStep(id, up) =>
      NetConcat(if HasCode(id) then [Fetch(Address(id))] else [], PostCode(id, Delta(up)));
      NetOfSteps(id, Delta(up));
      if HasCode(id) { NetOfShort(Fetch(Address(id)), Pop); }
    case Deref(p) =>
      NetOfCode(p);
      NetConcat(Code(p), Typed(TypeOf(p), [FetchTop]));
      NetOfShort(FetchTop, Pop);
    case AddrOf(lv) => NetOfPlace(lv);
    case Call(entry, args) =>
      NetOfAll(args);
      var n := (Length(args) % 0x100) as Byte;
      NetConcat([Push(entry)], CodeAll(args));
      NetConcat([Push(entry)] + CodeAll(args), [Syscall(n)]);
      NetOfShort(Push(entry), Pop);
      NetOfShort(Syscall(n), Pop);
  }

  lemma {:induction false} NetOfPlace(lv: LValue)
    ensures Net(CodePlace(lv)) == 1 + SurplusOfPlace(lv)
    decreases lv
  {
    match lv
    case LVar(id) => if HasCode(id) { NetOfShort(Push(Address(id)), Pop); }
    case LDeref(p) => NetOfCode(p);
  }

  lemma {:induction false} NetOfAll(es: Exprs)
    ensures Net(CodeAll(es)) == Length(es) + SurplusOfAll(es)
    decreases es
  {
    match es
    case Done =>
    case More(e, rest) =>
      NetOfCode(e);
      NetOfAll(rest);
      NetConcat(Code(e), CodeAll(rest));
  }

  // Whatever the expression, its code can be right only if it leaves one slot.
  lemma {:induction false} RightHasNoSurplus(sys: System, e: Expr, m: Memory)
    requires Scoped(e) && Eval(sys, e, m).Some? && Right(sys, e, m)
    ensures Surplus(e) == 0
  {
    hide Eval, Code, Right, Net, Surplus;
    RightIsCode(sys, e, m);
    NetOfRun(sys, Code(e), State([], m));
    NetOfCode(e);
  }

  // No void* variable occurs.
  predicate Emitting(e: Expr)
    decreases e
  {
    match e
    case Lit(_, _) => true
    case Read(id) => IsVariable(id) && !IsVoidPointer(id)
    case Bin(_, a, b) => Emitting(a) && Emitting(b)
    case Not(a) => Emitting(a)
    case Assign(lv, e') => EmittingPlace(lv) && Emitting(e')
    case PreStep(lv, _) => EmittingPlace(lv)
    case PostStep(id, _) => IsVariable(id) && !IsVoidPointer(id)
    case Deref(p) => Emitting(p)
    case AddrOf(lv) => EmittingPlace(lv)
    case Call(_, args) => EmittingAll(args)
  }

  predicate EmittingPlace(lv: LValue)
    decreases lv
  {
    match lv
    case LVar(id) => IsVariable(id) && !IsVoidPointer(id)
    case LDeref(p) => Emitting(p)
  }

  predicate EmittingAll(es: Exprs)
    decreases es
  {
    match es
    case Done => true
    case More(e, rest) => Emitting(e) && EmittingAll(rest)
  }

  // At no depth does an operator of two operands, or an assignment, have a first operand that starts
  // with a call; and no call has more arguments than the operand byte can count.
  predicate Paired(e: Expr)
    decreases e
  {
    match e
    case Lit(_, _) => true
    case Read(_) => true
    case Bin(_, a, b) => Paired(a) && Paired(b) && !StartsWithCall(a)
    case Not(a) => Paired(a)
    case Assign(lv, e') => PairedPlace(lv) && Paired(e') && !(lv.LDeref? && StartsWithCall(lv.p))
    case PreStep(lv, _) => PairedPlace(lv)
    case PostStep(_, _) => true
    case Deref(p) => Paired(p)
    case AddrOf(lv) => PairedPlace(lv)
    case Call(_, args) => PairedAll(args) && Length(args) < 0x100
  }

  predicate PairedPlace(lv: LValue)
    decreases lv
  {
    lv.LDeref? ==> Paired(lv.p)
  }

  predicate PairedAll(es: Exprs)
    decreases es
  {
    match es
    case Done => true
    case More(e, rest) => Paired(e) && PairedAll(rest)
  }

  lemma {:induction false} SurplusCounts(e: Expr)
    requires Emitting(e)
    ensures Surplus(e) >= 0 && (Surplus(e) == 0 <==> Paired(e))
    decreases e
  {
    match e
    case Lit(_, _) =>
    case Read(_) =>
    case Bin(_, a, b) => SurplusCounts(a); SurplusCounts(b);
    case Not(a) => SurplusCounts(a);
    case Assign(lv, e') => SurplusCountsPlace(lv); SurplusCounts(e');
    case PreStep(lv, _) => SurplusCountsPlace(lv);
    case PostStep(_, _) =>
    case Deref(p) => SurplusCounts(p);
    case AddrOf(lv) => SurplusCountsPlace(lv);
    case Call(_, args) => SurplusCountsAll(args);
  }

  lemma {:induction false} SurplusCountsPlace(lv: LValue)
    requires EmittingPlace(lv)
    ensures SurplusOfPlace(lv) >= 0 && (SurplusOfPlace(lv) == 0 <==> PairedPlace(lv))
    decreases lv
  {
    if lv.LDeref? { SurplusCounts(lv.p); }
  }

  lemma {:induction false} SurplusCountsAll(es: Exprs)
    requires EmittingAll(es)
    ensures SurplusOfAll(es) >= 0 && (SurplusOfAll(es) == 0 <==> PairedAll(es))
    decreases es
  {
    match es
    case Done =>
    case More(e, rest) => SurplusCounts(e); SurplusCountsAll(rest);
  }

  // So an operator dropped behind a call, however deep in an expression without void pointers, always
  // shows: too many slots are left, one for each.
  lemma {:induction false} RightIsPaired(sys: System, e: Expr, m: Memory)
    requires Scoped(e) && Emitting(e) && Eval(sys, e, m).Some? && Right(sys, e, m)
    ensures Paired(e)
  {
    RightHasNoSurplus(sys, e, m);
    SurplusCounts(e);
  }

  // An operator whose first operand starts with a call compiles to its operands alone.
  lemma {:induction false} OperatorAfterCallIsDropped(op: BinOp, a: Expr, b: Expr)
    requires Scoped(a) && Scoped(b) && StartsWithCall(a)
    ensures Gen(Check(Lower(Bin(op, a, b), Nil), false)) == Code(a) + Code(b)
  {
    hide Check, Gen;
    NilCode();
    TreeCode(Bin(op, a, b), Nil);
  }

  // ---- Right code stays right wherever it stands ----

  lemma {:induction false} ExecConcat(sys: System, a: seq<Instr>, b: seq<Instr>, st: State)
    ensures ExecAll(sys, a + b, st) == match ExecAll(sys, a, st) case None => None case Some(st') => ExecAll(sys, b, st')
    decreases |a|
  {
    hide Exec;
    if a == [] {
      assert a + b == b;
    } else {
      assert (a + b)[1..] == a[1..] + b;
      match Exec(sys, a[0], st)
      case None =>
      case Some(st') => ExecConcat(sys, a[1..], b, st');
    }
  }

  // An instruction that finds its operands does the same on top of anything.
  lemma {:induction false} StepUnder(sys: System, i: Instr, base: seq<Word>, s: seq<Word>, m: Memory)
    requires Exec(sys, i, State(s, m)).Some?
    ensures var r := Exec(sys, i, State(s, m)).value;
            Exec(sys, i, State(base + s, m)) == Some(State(base + r.stack, r.mem))
  {
    hide Operate, Load, Store, Top, Drop;
    var t := Exec(sys, i, State(s, m)).value.stack;
    match i
    case Noop =>
    case Binary(op) => Under(base, s, 2, t[|t| - 1]);
    case Flip => Under(base, s, 1, t[|t| - 1]);
    case Push(v) => Under(base, s, 0, v);
    case Fetch(a) => Under(base, s, 0, t[|t| - 1]);
    case StoreTop => Under(base, s, 1, 0); UnderTop(base, s, 1);
    case Pop => Under(base, s, 1, 0);
    case FetchTop => Under(base, s, 1, t[|t| - 1]);
    case Syscall(n) =>
      Under(base, s, n as int + 1, t[|t| - 1]);
      UnderTop(base, s, n as int);
      assert (base + s)[|base + s| - n as int..] == s[|s| - n as int..];
  }

  lemma {:induction false} Under(base: seq<Word>, s: seq<Word>, k: nat, v: Word)
    requires k <= |s|
    ensures Drop(base + s, k) == base + Drop(s, k)
    ensures base + Drop(s, k) + [v] == base + (Drop(s, k) + [v])
    ensures k > 0 ==> Top(base + s, 0) == Top(s, 0)
    ensures k > 1 ==> Top(base + s, 1) == Top(s, 1)
    ensures Drop(s, 0) == s && |Drop(s, k) + [v]| > 0 && (Drop(s, k) + [v])[|Drop(s, k)|] == v
  {
  }

  lemma {:induction false} UnderTop(base: seq<Word>, s: seq<Word>, k: nat)
    requires k < |s|
    ensures Top(base + s, k) == Top(s, k)
  {
  }

  lemma {:induction false} ExecUnder(sys: System, code: seq<Instr>, base: seq<Word>, s: seq<Word>, m: Memory)
    requires ExecAll(sys, code, State(s, m)).Some?
    ensures var r := ExecAll(sys, code, State(s, m)).value;
            ExecAll(sys, code, State(base + s, m)) == Some(State(base + r.stack, r.mem))
    decreases |code|
  {
    hide Exec;
    if code != [] {
      StepUnder(sys, code[0], base, s, m);
      var r := Exec(sys, code[0], State(s, m)).value;
      ExecUnder(sys, code[1..], base, r.stack, r.mem);
    }
  }

  lemma {:induction false} InContext(sys: System, e: Expr, m: Memory, base: seq<Word>, rest: seq<Instr>)
    requires Scoped(e) && Eval(sys, e, m).Some? && Right(sys, e, m)
    ensures ExecAll(sys, Code(e) + rest, State(base, m)) == Continue(sys, Eval(sys, e, m), base, rest)
  {
    hide Eval, Code, Right, ExecAll;
    RightIsCode(sys, e, m);
    ExecUnder(sys, Code(e), base, [], m);
    assert base + [] == base;
    ExecConcat(sys, Code(e), rest, State(base, m));
  }

  // ---- One operator, with operands that are compiled right ----

  // The operands that the evaluation of an expression evaluates, each with the memory it finds.
  function Parts(sys: System, e: Expr, m: Memory): (ps: seq<(Expr, Memory)>)
    requires Scoped(e) && Eval(sys, e, m).Some?
    ensures forall p <- ps :: p.0 < e && Scoped(p.0) && Eval(sys, p.0, p.1).Some?
  {
    match e
    case Lit(_, _) => []
    case Read(_) => []
    case Bin(_, a, b) => [(a, m), (b, Eval(sys, a, m).value.1)]
    case Not(a) => [(a, m)]
    case Assign(lv, e') => PartsOfPlace(sys, lv, m) + [(e', Place(sys, lv, m).value.1)]
    case PreStep(lv, _) => PartsOfPlace(sys, lv, m)
    case PostStep(_, _) => []
    case Deref(p) => [(p, m)]
    case AddrOf(lv) => PartsOfPlace(sys, lv, m)
    case Call(_, args) => PartsOfAll(sys, args, m)
  }

  function PartsOfPlace(sys: System, lv: LValue, m: Memory): (ps: seq<(Expr, Memory)>)
    requires ScopedPlace(lv) && Place(sys, lv, m).Some?
    ensures forall p <- ps :: p.0 < lv && Scoped(p.0) && Eval(sys, p.0, p.1).Some?
  {
    match lv
    case LVar(_) => []
    case LDeref(p) => [(p, m)]
  }

  function PartsOfAll(sys: System, es: Exprs, m: Memory): (ps: seq<(Expr, Memory)>)
    requires ScopedAll(es) && EvalAll(sys, es, m).Some?
    ensures forall p <- ps :: p.0 < es && Scoped(p.0) && Eval(sys, p.0, p.1).Some?
    decreases es
  {
    match es
    case Done => []
    case More(e, rest) => [(e, m)] + PartsOfAll(sys, rest, Eval(sys, e, m).value.1)
  }

  ghost predicate AllRight(sys: System, ps: seq<(Expr, Memory)>)
    requires forall p <- ps :: Scoped(p.0) && Eval(sys, p.0, p.1).Some?
  {
    forall p <- ps :: Right(sys, p.0, p.1)
  }

  // What decides: a first operand that does not start with a call, a variable that is no void pointer, and for ++ and -- a
  // shell variable or addresses that happen to agree.
  predicate Meant(sys: System, e: Expr, m: Memory)
    requires Scoped(e)
  {
    match e
    case Lit(_, _) => true
    case Read(id) => !IsVoidPointer(id)
    case Bin(_, a, _) => !StartsWithCall(a)
    case Not(a) => !StartsWithCall(a)
    case Assign(lv, _) => (if lv.LVar? then !IsVoidPointer(lv.id) else !StartsWithCall(lv.p))
    case PreStep(lv, _) => lv.LVar? && !IsVoidPointer(lv.id) && (lv.id.SysVar? ==> Load(m, lv.id.shadow) == Load(m, lv.id.target))
    case PostStep(id, _) => !IsVoidPointer(id) && (id.SysVar? ==> id.shadow == id.target)
    case Deref(p) => !StartsWithCall(p) || PointsAtItself(Eval(sys, p, m))
    case AddrOf(lv) => (lv.LVar? ==> !IsVoidPointer(lv.id))
    case Call(_, _) => true
  }

  // The one way in which dropping * does no harm.
  predicate PointsAtItself(r: Option<(Word, Memory)>)
  {
    r.Some? && Load(r.value.1, r.value.0) == Some(r.value.0)
  }

  // For every operator over operands that are compiled right: its code computes what it means if and
  // only if that is so.
  lemma {:induction false} RightIff(sys: System, e: Expr, m: Memory)
    requires Scoped(e) && Eval(sys, e, m).Some? && AllRight(sys, Parts(sys, e, m))
    ensures Right(sys, e, m) <==> Meant(sys, e, m)
  {
    hide Right, Code, Load, Store, Operate, AllRight;
    match e
    case Lit(_, _) => SoundIsRight(sys, e, m);
    case Read(id) => VariableRightIff(sys, e, m);
    case Bin(op, a, b) =>
      assert Parts(sys, e, m) == [(a, m)] + [(b, Eval(sys, a, m).value.1)];
      FirstPart(sys, (a, m), [(b, Eval(sys, a, m).value.1)]);
      OnePart(sys, (b, Eval(sys, a, m).value.1));
      BinRightIff(sys, op, a, b, m);
    case Not(a) => OnePart(sys, (a, m)); NotRightIff(sys, a, m);
    case Assign(lv, e') => AssignRightIff(sys, lv, e', m);
    case PreStep(lv, up) =>
      if lv.LVar? { PreRightIff(sys, lv.id, up, m); } else { OnePart(sys, (lv.p, m)); PreThroughPointer(sys, lv.p, up, m); }
    case PostStep(id, up) => PostRightIff(sys, id, up, m);
    case Deref(p) => OnePart(sys, (p, m)); DerefRightIff(sys, p, m);
    case AddrOf(lv) => if lv.LVar? { VariableRightIff(sys, e, m); } else { OnePart(sys, (lv.p, m)); AddrIsRight(sys, lv.p, m); }
    case Call(entry, args) => CallIsRight(sys, entry, args, m);
  }

  lemma OnePart(sys: System, p: (Expr, Memory))
    requires Scoped(p.0) && Eval(sys, p.0, p.1).Some? && AllRight(sys, [p])
    ensures Right(sys, p.0, p.1)
  {
    assert p in [p];
  }

  lemma FirstPart(sys: System, p: (Expr, Memory), ps: seq<(Expr, Memory)>)
    requires Scoped(p.0) && Eval(sys, p.0, p.1).Some? && forall q <- ps :: Scoped(q.0) && Eval(sys, q.0, q.1).Some?
    requires AllRight(sys, [p] + ps)
    ensures Right(sys, p.0, p.1) && AllRight(sys, ps)
  {
    assert p in [p] + ps && forall q <- ps :: q in [p] + ps;
  }

  // A whole expression, at any depth: each of its parts is compiled right ...
  ghost predicate Faithful(sys: System, e: Expr, m: Memory)
    requires Scoped(e) && Eval(sys, e, m).Some?
    decreases e
  {
    Right(sys, e, m) && forall p <- Parts(sys, e, m) :: Faithful(sys, p.0, p.1)
  }

  // ... if and only if each of its parts meets its condition.
  ghost predicate MeantThroughout(sys: System, e: Expr, m: Memory)
    requires Scoped(e) && Eval(sys, e, m).Some?
    decreases e
  {
    Meant(sys, e, m) && forall p <- Parts(sys, e, m) :: MeantThroughout(sys, p.0, p.1)
  }

  lemma {:induction false} FaithfulIff(sys: System, e: Expr, m: Memory)
    requires Scoped(e) && Eval(sys, e, m).Some?
    ensures Faithful(sys, e, m) <==> MeantThroughout(sys, e, m)
    decreases e
  {
    hide Right, Meant, Parts, Eval, Scoped;
    forall p <- Parts(sys, e, m) ensures Faithful(sys, p.0, p.1) <==> MeantThroughout(sys, p.0, p.1) {
      FaithfulIff(sys, p.0, p.1);
    }
    if forall p <- Parts(sys, e, m) :: Faithful(sys, p.0, p.1) {
      assert AllRight(sys, Parts(sys, e, m)) by {
        forall p <- Parts(sys, e, m) ensures Right(sys, p.0, p.1) { FaithfulIsRight(sys, p.0, p.1); }
      }
      RightIff(sys, e, m);
    }
  }

  lemma FaithfulIsRight(sys: System, e: Expr, m: Memory)
    requires Scoped(e) && Eval(sys, e, m).Some? && Faithful(sys, e, m)
    ensures Right(sys, e, m)
  {
  }

  // A variable on its own, read or as an address.
  lemma {:induction false} VariableRightIff(sys: System, e: Expr, m: Memory)
    requires Scoped(e) && Eval(sys, e, m).Some? && (e.Read? || (e.AddrOf? && e.lv.LVar?))
    ensures Right(sys, e, m) <==> !IsVoidPointer(if e.Read? then e.id else e.lv.id)
  {
    hide Right, Code, Eval;
    assert e.AddrOf? ==> (SoundPlace(e.lv) <==> HasCode(e.lv.id)) && SurplusOfPlace(e.lv) == Missing(e.lv.id);
    if Sound(e) {
      SoundIsRight(sys, e, m);
    } else if Right(sys, e, m) {
      RightHasNoSurplus(sys, e, m);
    }
  }

  lemma {:induction false} BinRightIff(sys: System, op: BinOp, a: Expr, b: Expr, m: Memory)
    requires Scoped(a) && Scoped(b) && Eval(sys, Bin(op, a, b), m).Some?
    requires Eval(sys, a, m).Some? && Right(sys, a, m)
    requires var m1 := Eval(sys, a, m).value.1; Eval(sys, b, m1).Some? && Right(sys, b, m1)
    ensures Right(sys, Bin(op, a, b), m) <==> !StartsWithCall(a)
  {
    hide Right, Code, ExecAll, Eval;
    var (x, m1) := Eval(sys, a, m).value;
    if TypeOf(a).Dword? {
      InContext(sys, a, m, [], Code(b) + ([Binary(op)] + []));
      InContext(sys, b, m1, [] + [x], [Binary(op)] + []);
      BinMeaning(sys, op, a, b, State([], m), []);
      FromMeaning(sys, Bin(op, a, b), m);
    } else if Right(sys, Bin(op, a, b), m) {
      RightHasNoSurplus(sys, a, m);
      RightHasNoSurplus(sys, b, m1);
      RightHasNoSurplus(sys, Bin(op, a, b), m);
    }
  }

  // The form in which the meanings of single operators are proved.
  lemma {:induction false} FromMeaning(sys: System, e: Expr, m: Memory)
    requires Scoped(e) && Eval(sys, e, m).Some?
    requires ExecAll(sys, Code(e) + [], State([], m)) == Continue(sys, Eval(sys, e, m), [], [])
    ensures Right(sys, e, m)
  {
    hide Right, Code, Eval;
    RightIsCode(sys, e, m);
    assert Code(e) + [] == Code(e) && [] + [Eval(sys, e, m).value.0] == [Eval(sys, e, m).value.0];
  }

  // The address of an assignment, on the stack.
  lemma {:induction false} PlaceInContext(sys: System, lv: LValue, m: Memory, rest: seq<Instr>)
    requires ScopedPlace(lv) && Place(sys, lv, m).Some? && AllRight(sys, PartsOfPlace(sys, lv, m))
    requires lv.LVar? ==> HasCode(lv.id)
    ensures ExecAll(sys, CodePlace(lv) + rest, State([], m)) == Continue(sys, Place(sys, lv, m), [], rest)
    ensures SurplusOfPlace(lv) == 0
  {
    hide Right, AllRight, ExecAll;
    match lv
    case LVar(id) => OneStep(sys, Push(Address(id)), rest, State([], m));
    case LDeref(p) =>
      OnePart(sys, (p, m));
      RightHasNoSurplus(sys, p, m);
      InContext(sys, p, m, [], rest);
  }

  lemma {:induction false} AssignRightIff(sys: System, lv: LValue, e: Expr, m: Memory)
    requires ScopedPlace(lv) && Scoped(e) && Eval(sys, Assign(lv, e), m).Some?
    requires AllRight(sys, Parts(sys, Assign(lv, e), m))
    ensures Right(sys, Assign(lv, e), m) <==> if lv.LVar? then !IsVoidPointer(lv.id) else !StartsWithCall(lv.p)
  {
    hide Right, Code, ExecAll, AllRight, CodePlace, Eval;
    AssignParts(sys, lv, e, m);
    var (a, m1) := Place(sys, lv, m).value;
    RightHasNoSurplus(sys, e, m1);
    if lv.LVar? && !HasCode(lv.id) {
      if Right(sys, Assign(lv, e), m) { RightHasNoSurplus(sys, Assign(lv, e), m); }
    } else {
      PlaceInContext(sys, lv, m, Code(e) + ([StoreTop, FetchTop] + []));
      if TypeOfPlace(lv).Dword? {
        InContext(sys, e, m1, [] + [a], [StoreTop, FetchTop] + []);
        AssignMeaning(sys, lv, e, State([], m), []);
        FromMeaning(sys, Assign(lv, e), m);
      } else if Right(sys, Assign(lv, e), m) {
        RightHasNoSurplus(sys, Assign(lv, e), m);
      }
    }
  }

  lemma {:induction false} AssignParts(sys: System, lv: LValue, e: Expr, m: Memory)
    requires ScopedPlace(lv) && Scoped(e) && Eval(sys, Assign(lv, e), m).Some?
    requires AllRight(sys, Parts(sys, Assign(lv, e), m))
    ensures Place(sys, lv, m).Some? && AllRight(sys, PartsOfPlace(sys, lv, m))
    ensures var m1 := Place(sys, lv, m).value.1; Eval(sys, e, m1).Some? && Right(sys, e, m1)
  {
    hide Right;
    var ps, q := PartsOfPlace(sys, lv, m), (e, Place(sys, lv, m).value.1);
    assert Parts(sys, Assign(lv, e), m) == ps + [q];
    assert q in ps + [q] && forall p <- ps :: p in ps + [q];
  }

  // &*p is p.
  lemma {:induction false} AddrIsRight(sys: System, p: Expr, m: Memory)
    requires Scoped(p) && Eval(sys, p, m).Some? && Right(sys, p, m)
    ensures Right(sys, AddrOf(LDeref(p)), m)
  {
    hide Right;
    assert Code(AddrOf(LDeref(p))) == Code(p);
    Alone(sys, p, m, AddrOf(LDeref(p)));
  }

  lemma {:induction false} ArgsInContext(sys: System, es: Exprs, m: Memory, base: seq<Word>, rest: seq<Instr>)
    requires ScopedAll(es) && EvalAll(sys, es, m).Some? && AllRight(sys, PartsOfAll(sys, es, m))
    ensures ExecAll(sys, CodeAll(es) + rest, State(base, m)) ==
            ExecAll(sys, rest, State(base + EvalAll(sys, es, m).value.0, EvalAll(sys, es, m).value.1))
    decreases es
  {
    hide Right, ExecAll, AllRight, Eval, Code;
    match es
    case Done => assert CodeAll(es) + rest == rest && base + [] == base;
    case More(e, more) =>
      var (v, m1) := Eval(sys, e, m).value;
      FirstPart(sys, (e, m), PartsOfAll(sys, more, m1));
      assert CodeAll(es) + rest == Code(e) + (CodeAll(more) + rest);
      InContext(sys, e, m, base, CodeAll(more) + rest);
      ArgsInContext(sys, more, m1, base + [v], rest);
      var vs := EvalAll(sys, more, m1).value.0;
      assert base + [v] + vs == base + ([v] + vs);
  }

  lemma {:induction false} CallIsRight(sys: System, entry: Word, args: Exprs, m: Memory)
    requires ScopedAll(args) && Eval(sys, Call(entry, args), m).Some? && AllRight(sys, Parts(sys, Call(entry, args), m))
    ensures Right(sys, Call(entry, args), m)
  {
    hide Right, ExecAll, AllRight, CodeAll, Code;
    CallsAreShort(sys, entry, args, m);
    var more := [Syscall((Length(args) % 0x100) as Byte)] + [];
    ArgsInContext(sys, args, m, [] + [entry], more);
    CallMeaning(sys, entry, args, State([], m), []);
    FromMeaning(sys, Call(entry, args), m);
  }

  lemma {:induction false} CallsAreShort(sys: System, entry: Word, args: Exprs, m: Memory)
    requires ScopedAll(args) && Eval(sys, Call(entry, args), m).Some?
    ensures Length(args) <= MAX_ARGS
  {
  }

  // ~f() is f(), which is never its own complement.
  lemma {:induction false} NotRightIff(sys: System, a: Expr, m: Memory)
    requires Scoped(a) && Eval(sys, Not(a), m).Some? && Eval(sys, a, m).Some? && Right(sys, a, m)
    ensures Right(sys, Not(a), m) <==> !StartsWithCall(a)
  {
    hide Right, Code, ExecAll;
    var (x, m1) := Eval(sys, a, m).value;
    if TypeOf(a).Dword? {
      InContext(sys, a, m, [], [Flip] + []);
      UnaryStep(sys, [], [], x, m1);
      UnaryCode(a);
      FromMeaning(sys, Not(a), m);
    } else {
      UnaryCode(a);
      Alone(sys, a, m, Not(a));
      assert Eval(sys, Not(a), m).value.0 == Complement(x);
    }
  }

  lemma {:induction false} UnaryCode(a: Expr)
    ensures TypeOf(a).Void? ==> Code(Not(a)) == Code(a) && Code(Deref(a)) == Code(a)
    ensures TypeOf(a).Dword? ==> Code(Not(a)) + [] == Code(a) + ([Flip] + []) && Code(Deref(a)) + [] == Code(a) + ([FetchTop] + [])
  {
  }

  // *f() is f(): right only for a pointer at itself.
  lemma {:induction false} DerefRightIff(sys: System, p: Expr, m: Memory)
    requires Scoped(p) && Eval(sys, Deref(p), m).Some? && Eval(sys, p, m).Some? && Right(sys, p, m)
    ensures Right(sys, Deref(p), m) <==> !StartsWithCall(p) || PointsAtItself(Eval(sys, p, m))
  {
    hide Right, Code, Load, ExecAll;
    UnaryCode(p);
    if TypeOf(p).Dword? {
      InContext(sys, p, m, [], [FetchTop] + []);
      UnaryStep(sys, [], [], Eval(sys, p, m).value.0, Eval(sys, p, m).value.1);
      FromMeaning(sys, Deref(p), m);
    } else {
      Alone(sys, p, m, Deref(p));
    }
  }

  // ++*p and --*p are p: memory stays as it was, so they are never right.
  lemma {:induction false} PreThroughPointer(sys: System, p: Expr, up: bool, m: Memory)
    requires Scoped(p) && Eval(sys, PreStep(LDeref(p), up), m).Some? && Eval(sys, p, m).Some? && Right(sys, p, m)
    ensures !Right(sys, PreStep(LDeref(p), up), m)
  {
    hide Right, Code, Eval, Stepped;
    PreOfPointer(sys, p, up, m);
    var (a, m1) := Eval(sys, p, m).value;
    SteppedBytes(m1, a, a, up);
    Alone(sys, p, m, PreStep(LDeref(p), up));
  }

  // An expression whose code is that of its operand gives the operand's value and memory.
  lemma {:induction false} Alone(sys: System, p: Expr, m: Memory, e: Expr)
    requires Scoped(p) && Eval(sys, p, m).Some? && Right(sys, p, m)
    requires Scoped(e) && Eval(sys, e, m).Some? && Code(e) == Code(p)
    ensures Right(sys, e, m) <==> Eval(sys, e, m) == Eval(sys, p, m)
  {
    hide Right, Code, Eval;
    RightIsCode(sys, e, m);
    RightIsCode(sys, p, m);
    SingleStack(Eval(sys, e, m).value.0, Eval(sys, p, m).value.0);
  }

  lemma {:induction false} SingleStack(v: Word, w: Word)
    ensures [v] == [w] <==> v == w
  {
    assert [v][0] == v && [w][0] == w;
  }

  lemma {:induction false} PreOfPointer(sys: System, p: Expr, up: bool, m: Memory)
    requires Scoped(p) && Eval(sys, PreStep(LDeref(p), up), m).Some?
    ensures Code(PreStep(LDeref(p), up)) == Code(p)
    ensures Eval(sys, p, m).Some?
    ensures var (a, m1) := Eval(sys, p, m).value;
            Mapped(m1, a) && Eval(sys, PreStep(LDeref(p), up), m).value.1 == Stepped(m1, a, up)
  {
  }

  // ---- ++ and -- of a variable ----

  // The word at address a one up or down, and the memory with it.
  function StepValue(m: Memory, a: Word, up: bool): Word
    requires Mapped(m, a)
  {
    Operate(Delta(up), Load(m, a).value, 1).value
  }

  function Stepped(m: Memory, a: Word, up: bool): Memory
    requires Mapped(m, a)
  {
    Store(m, a, StepValue(m, a, up)).value
  }

  // x++: the value at the address of x, and the word at the step address stepped.
  lemma {:induction false} PostStepped(sys: System, id: Id, up: bool, m: Memory)
    requires HasCode(id) && Mapped(m, Address(id))
    ensures ExecAll(sys, Code(PostStep(id, up)), State([], m)) ==
            if Mapped(m, StepAddress(id))
            then Some(State([Load(m, Address(id)).value], Stepped(m, StepAddress(id), up))) else None
  {
    hide ExecAll, Operate, Store, Load;
    var t, a, op := Address(id), StepAddress(id), Delta(up);
    var tail := [StoreTop] + ([Pop] + []);
    assert Code(PostStep(id, up)) == [Fetch(t)] + ([Push(a)] + ([Fetch(a)] + ([Push(1)] + ([Binary(op)] + tail))));
    LoadIff(m, t);
    LoadIff(m, a);
    var v := Load(m, t).value;
    OneStep(sys, Fetch(t), [Push(a)] + ([Fetch(a)] + ([Push(1)] + ([Binary(op)] + tail))), State([], m));
    assert [] + [v] == [v];
    OneStep(sys, Push(a), [Fetch(a)] + ([Push(1)] + ([Binary(op)] + tail)), State([v], m));
    OneStep(sys, Fetch(a), [Push(1)] + ([Binary(op)] + tail), State([v] + [a], m));
    if Mapped(m, a) {
      var w := Load(m, a).value;
      DeltaIsDefined(up, w);
      var w' := Operate(op, w, 1).value;
      OneStep(sys, Push(1), [Binary(op)] + tail, State([v] + [a] + [w], m));
      BinaryStep(sys, op, tail, [v] + [a], w, 1, m);
      LoadStored(m, a, w');
      OneStep(sys, StoreTop, [Pop] + [], State([v] + [a] + [w'], m));
      assert Drop([v] + [a] + [w'], 1) == [v] + [a] && Drop([v] + [a], 1) == [v];
      OneStep(sys, Pop, [], State([v] + [a], Store(m, a, w').value));
      ExecNothing(sys);
    }
  }

  // ++x: the word at the address of x becomes the word at the step address, stepped.
  lemma {:induction false} PreStepped(sys: System, id: Id, up: bool, m: Memory)
    requires HasCode(id) && Mapped(m, Address(id))
    ensures ExecAll(sys, Code(PreStep(LVar(id), up)), State([], m)) ==
            if Mapped(m, StepAddress(id))
            then Some(State([StepValue(m, StepAddress(id), up)], Store(m, Address(id), StepValue(m, StepAddress(id), up)).value))
            else None
  {
    hide ExecAll, Operate, Store, Load;
    var t, a, op := Address(id), StepAddress(id), Delta(up);
    var tail := [StoreTop, FetchTop] + [];
    assert Code(PreStep(LVar(id), up)) == [Push(t)] + ([Fetch(a)] + ([Push(1)] + ([Binary(op)] + tail)));
    LoadIff(m, t);
    LoadIff(m, a);
    OneStep(sys, Push(t), [Fetch(a)] + ([Push(1)] + ([Binary(op)] + tail)), State([], m));
    assert [] + [t] == [t];
    OneStep(sys, Fetch(a), [Push(1)] + ([Binary(op)] + tail), State([t], m));
    if Mapped(m, a) {
      var w := Load(m, a).value;
      DeltaIsDefined(up, w);
      var w' := Operate(op, w, 1).value;
      OneStep(sys, Push(1), [Binary(op)] + tail, State([t] + [w], m));
      BinaryStep(sys, op, tail, [t], w, 1, m);
      LoadStored(m, t, w');
      assert [] + [t] + [w'] == [t] + [w'] && [] + [w'] == [w'];
      StoreStep(sys, [], [], t, w', m);
      ExecNothing(sys);
    }
  }

  lemma {:induction false} LoadIff(m: Memory, a: Word)
    ensures Load(m, a).Some? <==> Mapped(m, a)
  {
  }

  lemma {:induction false} ExecNothing(sys: System)
    ensures forall st :: ExecAll(sys, [], st) == Some(st)
  {
  }

  lemma {:induction false} EvalSteps(sys: System, id: Id, up: bool, m: Memory)
    requires IsVariable(id)
    ensures Eval(sys, PostStep(id, up), m).Some? <==> Mapped(m, Address(id))
    ensures Eval(sys, PreStep(LVar(id), up), m).Some? <==> Mapped(m, Address(id))
    ensures Mapped(m, Address(id)) ==>
      && Eval(sys, PostStep(id, up), m) == Some((Load(m, Address(id)).value, Stepped(m, Address(id), up)))
      && Eval(sys, PreStep(LVar(id), up), m) == Some((StepValue(m, Address(id), up), Stepped(m, Address(id), up)))
  {
  }

  // x++ is right exactly for variables whose step address is their own: for a system variable the code
  // steps the word at its table entry.
  lemma {:induction false} PostRightIff(sys: System, id: Id, up: bool, m: Memory)
    requires IsVariable(id) && Eval(sys, PostStep(id, up), m).Some?
    ensures Right(sys, PostStep(id, up), m) <==> !IsVoidPointer(id) && (id.SysVar? ==> id.shadow == id.target)
  {
    hide Right, ExecAll, Eval, Code, Store, Operate, Load, Stepped;
    EvalSteps(sys, id, up, m);
    if HasCode(id) {
      PostStepped(sys, id, up, m);
      RightIsCode(sys, PostStep(id, up), m);
      if Mapped(m, StepAddress(id)) {
        SteppedDiffers(m, StepAddress(id), Address(id), up);
      }
    } else if Right(sys, PostStep(id, up), m) {
      RightHasNoSurplus(sys, PostStep(id, up), m);
    }
  }

  // ++x is right exactly if the two words are the same: for a system variable the code stores in the
  // variable, but what it stores is stepped from the word at the table entry.
  lemma {:induction false} PreRightIff(sys: System, id: Id, up: bool, m: Memory)
    requires IsVariable(id) && Eval(sys, PreStep(LVar(id), up), m).Some?
    ensures Right(sys, PreStep(LVar(id), up), m) <==>
            !IsVoidPointer(id) && (id.SysVar? ==> Load(m, id.shadow) == Load(m, id.target))
  {
    hide Right, ExecAll, Eval, Code, Store, Operate, Load, Stepped;
    EvalSteps(sys, id, up, m);
    LoadIff(m, StepAddress(id));
    LoadIff(m, Address(id));
    if HasCode(id) {
      PreStepped(sys, id, up, m);
      RightIsCode(sys, PreStep(LVar(id), up), m);
      SingleStack(StepValue(m, Address(id), up), if Mapped(m, StepAddress(id)) then StepValue(m, StepAddress(id), up) else 0);
      StepIsInjective(Load(m, Address(id)).value, if Mapped(m, StepAddress(id)) then Load(m, StepAddress(id)).value else 0, up);
      SteppedIsStored(m, Address(id), up);
    } else if Right(sys, PreStep(LVar(id), up), m) {
      RightHasNoSurplus(sys, PreStep(LVar(id), up), m);
    }
  }

  lemma {:induction false} SteppedIsStored(m: Memory, a: Word, up: bool)
    requires Mapped(m, a)
    ensures Stepped(m, a, up) == Store(m, a, StepValue(m, a, up)).value
  {
  }

  lemma {:induction false} StepIsInjective(v: Word, w: Word, up: bool)
    ensures Operate(Delta(up), v, 1).Some? && Operate(Delta(up), w, 1).Some?
    ensures Operate(Delta(up), v, 1).value == Operate(Delta(up), w, 1).value <==> v == w
  {
    assert Wrap(v + 1) == (if v == TWO32 - 1 then 0 else v + 1) && Wrap(w + 1) == (if w == TWO32 - 1 then 0 else w + 1);
    assert Wrap(v - 1) == (if v == 0 then TWO32 - 1 else v - 1) && Wrap(w - 1) == (if w == 0 then TWO32 - 1 else w - 1);
  }

  // Stepping changes the lowest byte of the word, so steps at two addresses never agree.
  lemma {:induction false} SteppedDiffers(m: Memory, s: Word, t: Word, up: bool)
    requires Mapped(m, s) && Mapped(m, t)
    ensures Stepped(m, s, up) == Stepped(m, t, up) <==> s == t
  {
    hide Stepped, Store, Load, Operate, Within;
    SteppedBytes(m, s, t, up);
    SteppedBytes(m, t, s, up);
    NotBothWithin(s, t);
  }

  lemma {:induction false} NotBothWithin(s: Word, t: Word)
    ensures s != t ==> !Within(s, t) || !Within(t, s)
  {
    hide Next;
    NextIs(s);
    NextIs(t);
  }

  lemma {:induction false} NextIs(a: Word)
    ensures forall k :: 0 <= k < 4 ==> Next(a, k) == if a + k < TWO32 then a + k else a + k - TWO32
  {
  }

  predicate Within(a: Word, base: Word)
  {
    a == base || a == Next(base, 1) || a == Next(base, 2) || a == Next(base, 3)
  }

  lemma {:induction false} SteppedBytes(m: Memory, a: Word, other: Word, up: bool)
    requires Mapped(m, a) && Mapped(m, other)
    ensures Stepped(m, a, up)[a] != m[a]
    ensures !Within(other, a) ==> Stepped(m, a, up)[other] == m[other]
  {
    hide Operate, Store, Load, Within;
    LowByte(m, a);
    LowByteFlips(Load(m, a).value, up);
    StoredBytes(m, a, other, StepValue(m, a, up));
  }

  lemma {:induction false} LowByte(m: Memory, a: Word)
    requires Mapped(m, a)
    ensures Load(m, a).Some? && Byte0(Load(m, a).value) == m[a]
  {
  }

  lemma {:induction false} StoredBytes(m: Memory, a: Word, other: Word, v: Word)
    requires Mapped(m, a) && Mapped(m, other)
    ensures Store(m, a, v).Some? && Store(m, a, v).value.Keys == m.Keys
    ensures Store(m, a, v).value[a] == Byte0(v)
    ensures !Within(other, a) ==> Store(m, a, v).value[other] == m[other]
  {
    hide Byte0, Byte1, Byte2, Byte3, Next;
    NextIs(a);
  }

  lemma {:induction false} LowByteFlips(w: Word, up: bool)
    ensures Byte0(Operate(Delta(up), w, 1).value) != Byte0(w)
  {
    assert Wrap(w + 1) == w + 1 || (w == TWO32 - 1 && Wrap(w + 1) == 0);
    assert Wrap(w - 1) == w - 1 || (w == 0 && Wrap(w - 1) == TWO32 - 1);
  }
}
