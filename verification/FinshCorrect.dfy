/** Type check + compile + run computes what the expression means: the compiler of
    MDK/components/finsh/finsh_compiler.c against the instructions of finsh_ops.c. */
module FinshCorrect {
  import opened FinshLang
  import opened FinshTree

  // ---- What each instruction does (finsh_ops.c); None where C leaves the result undefined ----

  datatype State = State(stack: seq<Word>, mem: Memory)

  function Top(s: seq<Word>, k: nat): Word
    requires k < |s|
  {
    s[|s| - 1 - k]
  }

  function Drop(s: seq<Word>, k: nat): seq<Word>
    requires k <= |s|
  {
    s[..|s| - k]
  }

  function Exec(sys: System, i: Instr, st: State): Option<State>
  {
    var s, m := st.stack, st.mem;
    match i
    case Noop => Some(st)
    case Binary(op) =>
      if |s| < 2 then None
      else (match Operate(op, Top(s, 1), Top(s, 0)) case None => None case Some(v) => Some(State(Drop(s, 2) + [v], m)))
    case Flip => if |s| < 1 then None else Some(State(Drop(s, 1) + [Complement(Top(s, 0))], m))
    case Push(v) => Some(State(s + [v], m))
    case Fetch(a) => (match Load(m, a) case None => None case Some(v) => Some(State(s + [v], m)))
    case StoreTop =>
      if |s| < 2 then None
      else (match Store(m, Top(s, 1), Top(s, 0)) case None => None case Some(m') => Some(State(Drop(s, 1), m')))
    case Pop => if |s| < 1 then None else Some(State(Drop(s, 1), m))
    case FetchTop =>
      if |s| < 1 then None
      else (match Load(m, Top(s, 0)) case None => None case Some(v) => Some(State(Drop(s, 1) + [v], m)))
    case Syscall(n) =>
      var k := n as int;
      if |s| < k + 1 || k > MAX_ARGS then None
      else
        match sys(Top(s, k), s[|s| - k..], m)
        case None => None
        case Some((v, m')) => Some(State(Drop(s, k + 1) + [v], m'))
  }

  function ExecAll(sys: System, code: seq<Instr>, st: State): Option<State>
    decreases |code|
  {
    if code == [] then Some(st)
    else match Exec(sys, code[0], st) case None => None case Some(st') => ExecAll(sys, code[1..], st')
  }

  // ---- Which expressions are compiled faithfully ----

  // Whether the first thing an expression does is to call a function.
  predicate StartsWithCall(e: Expr)
    decreases e
  {
    match e
    case Lit(_, _) => false
    case Read(_) => false
    case Bin(_, a, _) => StartsWithCall(a)
    case Not(a) => StartsWithCall(a)
    case Assign(lv, _) => lv.LDeref? && StartsWithCall(lv.p)
    case PreStep(lv, _) => lv.LDeref? && StartsWithCall(lv.p)
    case PostStep(_, _) => false
    case Deref(p) => StartsWithCall(p)
    case AddrOf(lv) => lv.LDeref? && StartsWithCall(lv.p)
    case Call(_, _) => true
  }

  // The data type the check infers is that of the leftmost leaf; a function has none.
  function TypeOf(e: Expr): DataType
  {
    if StartsWithCall(e) then Void else Dword
  }

  function TypeOfPlace(lv: LValue): DataType
  {
    match lv
    case LVar(_) => Dword
    case LDeref(p) => TypeOf(p)
  }

  // No void* variable is used, no operator has a first operand that starts with a call, and ++ and -- are
  // applied to shell variables only.
  predicate Sound(e: Expr)
    decreases e
  {
    match e
    case Lit(_, _) => true
    case Read(id) => IsVariable(id) && !IsVoidPointer(id)
    case Bin(_, a, b) => Sound(a) && Sound(b) && !StartsWithCall(a)
    case Not(a) => Sound(a) && !StartsWithCall(a)
    case Assign(lv, e') => SoundPlace(lv) && Sound(e') && !(lv.LDeref? && StartsWithCall(lv.p))
    case PreStep(lv, _) => lv.LVar? && lv.id.Var? && !IsVoidPointer(lv.id)
    case PostStep(id, _) => id.Var? && !IsVoidPointer(id)
    case Deref(p) => Sound(p) && !StartsWithCall(p)
    case AddrOf(lv) => SoundPlace(lv)
    case Call(_, args) => SoundAll(args) && Length(args) < 0x100
  }

  predicate SoundPlace(lv: LValue)
    decreases lv
  {
    match lv
    case LVar(id) => IsVariable(id) && !IsVoidPointer(id)
    case LDeref(p) => Sound(p)
  }

  predicate SoundAll(es: Exprs)
    decreases es
  {
    match es
    case Done => true
    case More(e, rest) => Sound(e) && SoundAll(rest)
  }

  lemma SoundIsScoped(e: Expr)
    requires Sound(e)
    ensures Scoped(e)
    decreases e
  {
    match e
    case Lit(_, _) =>
    case Read(id) =>
    case Bin(_, a, b) => SoundIsScoped(a); SoundIsScoped(b);
    case Not(a) => SoundIsScoped(a);
    case Assign(lv, e') => SoundPlaceIsScoped(lv); SoundIsScoped(e');
    case PreStep(lv, _) =>
    case PostStep(id, _) =>
    case Deref(p) => SoundIsScoped(p);
    case AddrOf(lv) => SoundPlaceIsScoped(lv);
    case Call(_, args) => SoundAllAreScoped(args);
  }

  lemma SoundPlaceIsScoped(lv: LValue)
    requires SoundPlace(lv)
    ensures ScopedPlace(lv)
    decreases lv
  {
    match lv
    case LVar(_) =>
    case LDeref(p) => SoundIsScoped(p);
  }

  lemma SoundAllAreScoped(es: Exprs)
    requires SoundAll(es)
    ensures ScopedAll(es)
    decreases es
  {
    match es
    case Done =>
    case More(e, rest) => SoundIsScoped(e); SoundAllAreScoped(rest);
  }

  // ---- Code, read off the expression ----

  // The type check gives an operator the type of its first operand, and an operator without a type
  // emits nothing.
  function Typed(ty: DataType, code: seq<Instr>): seq<Instr>
  {
    if ty.Dword? then code else []
  }

  predicate HasCode(id: Id)
  {
    IsVariable(id) && Emits(id.ty)
  }

  function Code(e: Expr): seq<Instr>
    decreases e
  {
    match e
    case Lit(_, v) => [Push(v)]
    case Read(id) => if HasCode(id) then [Fetch(Address(id))] else []
    case Bin(op, a, b) => Code(a) + Code(b) + Typed(TypeOf(a), [Binary(op)])
    case Not(a) => Code(a) + Typed(TypeOf(a), [Flip])
    case Assign(lv, e') => CodePlace(lv) + Code(e') + Typed(TypeOfPlace(lv), [StoreTop, FetchTop])
    case PreStep(lv, up) => CodePlace(lv) + (if lv.LVar? then PreCode(lv.id, Delta(up)) else [])
    case PostStep(id, up) => (if HasCode(id) then [Fetch(Address(id))] else []) + PostCode(id, Delta(up))
    case Deref(p) => Code(p) + Typed(TypeOf(p), [FetchTop])
    case AddrOf(lv) => CodePlace(lv)
    case Call(entry, args) => [Push(entry)] + CodeAll(args) + [Syscall((Length(args) % 0x100) as Byte)]
  }

  function CodePlace(lv: LValue): seq<Instr>
    decreases lv
  {
    match lv
    case LVar(id) => if HasCode(id) then [Push(Address(id))] else []
    case LDeref(p) => Code(p)
  }

  function CodeAll(es: Exprs): seq<Instr>
    decreases es
  {
    match es
    case Done => []
    case More(e, rest) => Code(e) + CodeAll(rest)
  }

  function CodeLine(es: Exprs): seq<Instr>
    decreases es
  {
    match es
    case Done => []
    case More(e, rest) => Code(e) + (if rest.Done? then [] else [Pop]) + CodeLine(rest)
  }

  // One node, checked and compiled.
  lemma {:induction false} SysNode(kind: Kind, child: Tree, sibling: Tree, isAddr: bool)
    requires child.Node?
    ensures var t := Check(Sys(kind, child, sibling), isAddr);
            var child' := Check(child, AddressForChild(kind, isAddr));
            && t.Node? && t.info == Info(kind, child'.info.dataType, isAddr, NoId, 0)
            && Gen(t) == Gen(child') + NodeCode(t.info, child') + Gen(Check(sibling, false))
            && Siblings(t) == 1 + Siblings(Check(sibling, false))
  {
  }

  lemma {:induction false} LeafNode(kind: Kind, id: Id, value: Word, sibling: Tree, isAddr: bool)
    ensures var t := Check(Leaf(kind, id, value, sibling), isAddr);
            && t.Node?
            && t.info == Annotate(Info(kind, Void, false, id, value), Nil, isAddr)
            && Gen(t) == NodeCode(t.info, Nil) + Gen(Check(sibling, false))
            && Siblings(t) == 1 + Siblings(Check(sibling, false))
            && t.sibling == Check(sibling, false)
  {
    assert Gen(Nil) == [];
  }

  lemma {:induction false} NilCode()
    ensures Check(Nil, false) == Nil && Gen(Nil) == [] && Siblings(Nil) == 0
  {
  }

  // The type check and the compiler, run on the parser's tree, emit exactly that code.
  lemma {:induction false} TreeCode(e: Expr, sibling: Tree)
    requires Scoped(e)
    ensures Compiled(e, sibling)
    decreases e
  {
    hide Compiled, CompiledPlace, Check, Gen, Code, CodeAll, Siblings;
    match e
    case Lit(_, _) => TreeLeaf(e, sibling);
    case Read(_) => TreeLeaf(e, sibling);
    case Bin(op, a, b) =>
      TreeCode(b, Nil);
      TreeCode(a, Lower(b, Nil));
      TreeBin(op, a, b, sibling);
    case Not(a) =>
      TreeCode(a, Nil);
      TreeNot(a, sibling);
    case Assign(lv, e') =>
      TreeCode(e', Nil);
      TreePlace(lv, Lower(e', Nil));
      TreeAssign(lv, e', sibling);
    case PreStep(lv, up) =>
      TreePlace(lv, Nil);
      TreePre(lv, up, sibling);
    case PostStep(id, up) => TreePost(id, up, sibling);
    case Deref(p) =>
      TreeCode(p, Nil);
      TreeDeref(p, sibling);
    case AddrOf(lv) =>
      TreePlace(lv, Nil);
      TreeAddrOf(lv, sibling);
    case Call(entry, args) =>
      TreeAll(args);
      TreeCall(entry, args, sibling);
  }

  // The shape of every claim about a checked expression tree.
  ghost predicate Compiled(e: Expr, sibling: Tree)
  {
    var t := Check(Lower(e, sibling), false);
    && Gen(t) == Code(e) + Gen(Check(sibling, false))
    && t.info.dataType == TypeOf(e)
    && Siblings(t) == 1 + Siblings(Check(sibling, false))
  }

  ghost predicate CompiledPlace(lv: LValue, sibling: Tree)
  {
    var t := Check(LowerPlace(lv, sibling), true);
    && Gen(t) == CodePlace(lv) + Gen(Check(sibling, false))
    && t.info.dataType == TypeOfPlace(lv)
    && t.info.kind == (if lv.LVar? then KId else KGetValue) && (lv.LVar? ==> t.info.id == lv.id)
  }

  lemma {:induction false} TreeLeaf(e: Expr, sibling: Tree)
    requires Scoped(e) && (e.Lit? || e.Read?)
    ensures Compiled(e, sibling)
  {
    hide Check, Gen, Siblings;
    match e
    case Lit(kind, v) => LeafNode(KLit(kind), NoId, v, sibling, false);
    case Read(id) => LeafNode(KId, id, 0, sibling, false);
  }

  lemma {:induction false} TreeNot(a: Expr, sibling: Tree)
    requires Compiled(a, Nil)
    ensures Compiled(Not(a), sibling)
  {
    hide Check, Gen, Siblings, LowerPlace, LowerAll, CodePlace, CodeAll, IdCode, PreCode, PostCode, StepsId, Address;
    NilCode();
    SysNode(KNot, Lower(a, Nil), sibling, false);
  }

  lemma {:induction false} TreeDeref(p: Expr, sibling: Tree)
    requires Compiled(p, Nil)
    ensures Compiled(Deref(p), sibling)
  {
    hide Check, Gen, Siblings, LowerPlace, LowerAll, CodePlace, CodeAll, IdCode, PreCode, PostCode, StepsId, Address;
    NilCode();
    SysNode(KGetValue, Lower(p, Nil), sibling, false);
  }

  lemma {:induction false} TreeAddrOf(lv: LValue, sibling: Tree)
    requires CompiledPlace(lv, Nil)
    ensures Compiled(AddrOf(lv), sibling)
  {
    hide Check, Gen, Siblings, LowerAll, CodeAll, IdCode, PreCode, PostCode, StepsId, Address;
    NilCode();
    SysNode(KGetAddr, LowerPlace(lv, Nil), sibling, false);
  }

  lemma {:induction false} TreeBin(op: BinOp, a: Expr, b: Expr, sibling: Tree)
    requires Compiled(b, Nil) && Compiled(a, Lower(b, Nil))
    ensures Compiled(Bin(op, a, b), sibling)
  {
    hide Check, Gen, Siblings, LowerPlace, LowerAll, CodePlace, CodeAll, IdCode, PreCode, PostCode, StepsId, Address;
    NilCode();
    SysNode(KBin(op), Lower(a, Lower(b, Nil)), sibling, false);
    var child := Check(Lower(a, Lower(b, Nil)), false);
    assert Gen(child) == Code(a) + Code(b);
  }

  lemma AssignTyped(lv: LValue, e: Expr)
    ensures TypeOf(Assign(lv, e)) == TypeOfPlace(lv)
  {
  }

  lemma {:induction false} TreeAssign(lv: LValue, e: Expr, sibling: Tree)
    requires Compiled(e, Nil) && CompiledPlace(lv, Lower(e, Nil))
    ensures Compiled(Assign(lv, e), sibling)
  {
    hide Check, Gen, Siblings, LowerAll, LowerPlace, CodeAll, CodePlace, IdCode, PreCode, PostCode, StepsId, Address, TypeOf, TypeOfPlace;
    AssignTyped(lv, e);
    NilCode();
    SysNode(KAssign, LowerPlace(lv, Lower(e, Nil)), sibling, false);
  }

  lemma {:induction false} TreePre(lv: LValue, up: bool, sibling: Tree)
    requires ScopedPlace(lv) && CompiledPlace(lv, Nil)
    ensures Compiled(PreStep(lv, up), sibling)
  {
    hide Check, Gen, Siblings, LowerAll, CodeAll, IdCode, PreCode, PostCode;
    NilCode();
    SysNode(if up then KPreInc else KPreDec, LowerPlace(lv, Nil), sibling, false);
  }

  lemma PostTyped(id: Id, up: bool)
    ensures TypeOf(PostStep(id, up)) == Dword
  {
  }

  lemma {:induction false} ReadNode(id: Id)
    requires IsVariable(id)
    ensures var c := Check(Leaf(KId, id, 0, Nil), false);
            && c.Node? && c.info.kind == KId && c.info.id == id && c.info.dataType == Dword
            && Gen(c) == if HasCode(id) then [Fetch(Address(id))] else []
  {
    hide Check, Gen, Siblings;
    NilCode();
    LeafNode(KId, id, 0, Nil, false);
  }

  lemma {:induction false} TreePost(id: Id, up: bool, sibling: Tree)
    requires IsVariable(id)
    ensures Compiled(PostStep(id, up), sibling)
  {
    hide Check, Gen, Siblings, LowerPlace, LowerAll, CodePlace, CodeAll, PreCode, PostCode, StepAddress, TypeOf, HasCode, Address, Leaf;
    PostTyped(id, up);
    NilCode();
    ReadNode(id);
    SysNode(if up then KInc else KDec, Leaf(KId, id, 0, Nil), sibling, false);
  }

  lemma {:induction false} TreeCall(entry: Word, args: Exprs, sibling: Tree)
    requires var t := Check(LowerAll(args), false); Gen(t) == CodeAll(args) && Siblings(t) == Length(args)
    ensures Compiled(Call(entry, args), sibling)
  {
    hide Check, Gen, Siblings, LowerPlace, CodePlace, PreCode, PostCode, StepsId;
    LeafNode(KId, Func(entry), 0, LowerAll(args), false);
    SysNode(KFunc, Leaf(KId, Func(entry), 0, LowerAll(args)), sibling, false);
  }

  lemma {:induction false} TreePlace(lv: LValue, sibling: Tree)
    requires ScopedPlace(lv)
    ensures CompiledPlace(lv, sibling)
    decreases lv
  {
    hide Check, Gen, Siblings;
    NilCode();
    match lv
    case LVar(id) => LeafNode(KId, id, 0, sibling, true);
    case LDeref(p) =>
      TreeCode(p, Nil);
      SysNode(KGetValue, Lower(p, Nil), sibling, true);
  }

  lemma {:induction false} TreeAll(es: Exprs)
    requires ScopedAll(es)
    ensures var t := Check(LowerAll(es), false);
            Gen(t) == CodeAll(es) && Siblings(t) == Length(es)
    decreases es
  {
    hide Check, Gen, Siblings;
    NilCode();
    match es
    case Done =>
    case More(e, rest) =>
      TreeAll(rest);
      TreeCode(e, LowerAll(rest));
  }

  lemma {:induction false} Cancel(x: seq<Instr>, y: seq<Instr>, s: seq<Instr>)
    requires x + s == y + s
    ensures x == y
  {
    assert |x| == |y|;
    assert forall i | 0 <= i < |x| :: x[i] == (x + s)[i] && y[i] == (y + s)[i];
  }

  // A command line: the type check walks the whole sibling chain, then each statement is compiled alone.
  lemma {:induction false} TreeLine(es: Exprs)
    requires ScopedAll(es)
    ensures GenLine(Check(LowerAll(es), false)) == CodeLine(es)
    decreases es
  {
    match es
    case Done =>
    case More(e, rest) =>
      TreeLine(rest);
      TreeCode(e, LowerAll(rest));
      var t := Check(LowerAll(es), false);
      assert t.sibling == Check(LowerAll(rest), false) by { SiblingOfLower(e, LowerAll(rest)); }
      assert Gen(t) == Gen(Node(t.info, t.child, Nil)) + Gen(t.sibling);
      Cancel(Gen(Node(t.info, t.child, Nil)), Code(e), Gen(t.sibling));
      assert rest.Done? <==> t.sibling.Nil?;
  }

  lemma {:induction false} SiblingOfLower(e: Expr, sibling: Tree)
    ensures Check(Lower(e, sibling), false).sibling == Check(sibling, false)
  {
    match e
    case Lit(_, _) =>
    case Read(_) =>
    case Bin(_, _, _) =>
    case Not(_) =>
    case Assign(_, _) =>
    case PreStep(_, _) =>
    case PostStep(_, _) =>
    case Deref(_) =>
    case AddrOf(_) =>
    case Call(_, _) =>
  }

  // ---- Meaning ----

  // Going on with `rest` after a partial result.
  function Continue(sys: System, r: Option<(Word, Memory)>, stack: seq<Word>, rest: seq<Instr>): Option<State>
  {
    match r
    case None => None
    case Some((v, m)) => ExecAll(sys, rest, State(stack + [v], m))
  }

  lemma {:induction false} OneStep(sys: System, i: Instr, rest: seq<Instr>, st: State)
    ensures ExecAll(sys, [i] + rest, st) ==
            match Exec(sys, i, st) case None => None case Some(st') => ExecAll(sys, rest, st')
  {
    assert ([i] + rest)[1..] == rest;
  }

  // Running the code of e in front of `rest` goes on with e's value on the stack and e's memory.
  lemma {:induction false} CodeMeaning(sys: System, e: Expr, st: State, rest: seq<Instr>)
    requires Sound(e) && Scoped(e)
    ensures ExecAll(sys, Code(e) + rest, st) == Continue(sys, Eval(sys, e, st.mem), st.stack, rest)
    decreases e
  {
    hide ExecAll, Operate, Load, Store;
    match e
    case Lit(_, v) => OneStep(sys, Push(v), rest, st);
    case Read(id) => OneStep(sys, Fetch(Address(id)), rest, st);
    case Bin(op, a, b) =>
      CodeMeaning(sys, a, st, Code(b) + ([Binary(op)] + rest));
      if Eval(sys, a, st.mem).Some? {
        CodeMeaning(sys, b, After(st, Eval(sys, a, st.mem)), [Binary(op)] + rest);
      }
      BinMeaning(sys, op, a, b, st, rest);
    case Not(a) =>
      assert Code(e) + rest == Code(a) + ([Flip] + rest);
      CodeMeaning(sys, a, st, [Flip] + rest);
      if Eval(sys, a, st.mem).Some? {
        UnaryStep(sys, rest, st.stack, Eval(sys, a, st.mem).value.0, Eval(sys, a, st.mem).value.1);
      }
    case Assign(lv, e') =>
      PlaceMeaning(sys, lv, st, Code(e') + ([StoreTop, FetchTop] + rest));
      if Place(sys, lv, st.mem).Some? {
        CodeMeaning(sys, e', After(st, Place(sys, lv, st.mem)), [StoreTop, FetchTop] + rest);
      }
      AssignMeaning(sys, lv, e', st, rest);
    case PreStep(lv, up) =>
      PreMeaning(sys, lv.id, up, st, rest);
    case PostStep(id, up) =>
      PostMeaning(sys, id, up, st, rest);
    case Deref(p) =>
      assert Code(e) + rest == Code(p) + ([FetchTop] + rest);
      CodeMeaning(sys, p, st, [FetchTop] + rest);
      if Eval(sys, p, st.mem).Some? {
        UnaryStep(sys, rest, st.stack, Eval(sys, p, st.mem).value.0, Eval(sys, p, st.mem).value.1);
      }
    case AddrOf(lv) => PlaceMeaning(sys, lv, st, rest);
    case Call(entry, args) =>
      var more := [Syscall((Length(args) % 0x100) as Byte)] + rest;
      ArgsMeaning(sys, args, State(st.stack + [entry], st.mem), more);
      CallMeaning(sys, entry, args, st, rest);
  }

  // The machine state after an expression that has a value.
  function After(st: State, r: Option<(Word, Memory)>): State
    requires r.Some?
  {
    State(st.stack + [r.value.0], r.value.1)
  }

  lemma BinCode(op: BinOp, a: Expr, b: Expr, rest: seq<Instr>)
    requires TypeOf(a).Dword?
    ensures Code(Bin(op, a, b)) + rest == Code(a) + (Code(b) + ([Binary(op)] + rest))
  {
    hide TypeOf;
  }

  lemma BinEval(sys: System, op: BinOp, a: Expr, b: Expr, m: Memory)
    requires Scoped(a) && Scoped(b)
    ensures Scoped(Bin(op, a, b))
    ensures Eval(sys, Bin(op, a, b), m) ==
            match Eval(sys, a, m)
            case None => None
            case Some(p) =>
              match Eval(sys, b, p.1)
              case None => None
              case Some(q) => match Operate(op, p.0, q.0) case None => None case Some(v) => Some((v, q.1))
  {
    hide Operate;
  }

  lemma {:induction false} BinMeaning(sys: System, op: BinOp, a: Expr, b: Expr, st: State, rest: seq<Instr>)
    requires Scoped(Bin(op, a, b)) && Scoped(a) && Scoped(b)
    requires var more := Code(b) + ([Binary(op)] + rest);
             ExecAll(sys, Code(a) + more, st) == Continue(sys, Eval(sys, a, st.mem), st.stack, more)
    requires Eval(sys, a, st.mem).Some? ==>
             var st1, more := After(st, Eval(sys, a, st.mem)), [Binary(op)] + rest;
             ExecAll(sys, Code(b) + more, st1) == Continue(sys, Eval(sys, b, st1.mem), st1.stack, more)
    requires TypeOf(a).Dword?
    ensures ExecAll(sys, Code(Bin(op, a, b)) + rest, st) ==
            Continue(sys, Eval(sys, Bin(op, a, b), st.mem), st.stack, rest)
  {
    hide ExecAll, Exec, Operate, Code, TypeOf, Eval, Scoped;
    BinCode(op, a, b, rest);
    BinEval(sys, op, a, b, st.mem);
    var last := [Binary(op)] + rest;
    if Eval(sys, a, st.mem).Some? {
      var (x, m1) := Eval(sys, a, st.mem).value;
      var st1 := State(st.stack + [x], m1);
      assert ExecAll(sys, Code(Bin(op, a, b)) + rest, st) == ExecAll(sys, Code(b) + last, st1);
      if Eval(sys, b, m1).Some? {
        var (y, m2) := Eval(sys, b, m1).value;
        assert ExecAll(sys, Code(b) + last, st1) == ExecAll(sys, last, State(st.stack + [x] + [y], m2));
        BinaryStep(sys, op, rest, st.stack, x, y, m2);
      }
    }
  }

  lemma {:induction false} AssignMeaning(sys: System, lv: LValue, e: Expr, st: State, rest: seq<Instr>)
    requires ScopedPlace(lv) && Scoped(e) && TypeOfPlace(lv).Dword?
    requires var more := Code(e) + ([StoreTop, FetchTop] + rest);
             ExecAll(sys, CodePlace(lv) + more, st) == Continue(sys, Place(sys, lv, st.mem), st.stack, more)
    requires Place(sys, lv, st.mem).Some? ==>
             var st1, more := After(st, Place(sys, lv, st.mem)), [StoreTop, FetchTop] + rest;
             ExecAll(sys, Code(e) + more, st1) == Continue(sys, Eval(sys, e, st1.mem), st1.stack, more)
    ensures ExecAll(sys, Code(Assign(lv, e)) + rest, st) ==
            Continue(sys, Eval(sys, Assign(lv, e), st.mem), st.stack, rest)
  {
    hide ExecAll, Store, Load;
    assert Code(Assign(lv, e)) + rest == CodePlace(lv) + (Code(e) + ([StoreTop, FetchTop] + rest));
    if Place(sys, lv, st.mem).Some? {
      var (a, m1) := Place(sys, lv, st.mem).value;
      if Eval(sys, e, m1).Some? {
        StoreStep(sys, rest, st.stack, a, Eval(sys, e, m1).value.0, Eval(sys, e, m1).value.1);
      }
    }
  }

  lemma {:induction false} CallMeaning(sys: System, entry: Word, args: Exprs, st: State, rest: seq<Instr>)
    requires ScopedAll(args) && Length(args) < 0x100
    requires var more := [Syscall((Length(args) % 0x100) as Byte)] + rest;
             ExecAll(sys, CodeAll(args) + more, State(st.stack + [entry], st.mem)) ==
             match EvalAll(sys, args, st.mem)
             case None => None
             case Some((vs, m)) => ExecAll(sys, more, State(st.stack + [entry] + vs, m))
    ensures ExecAll(sys, Code(Call(entry, args)) + rest, st) ==
            Continue(sys, Eval(sys, Call(entry, args), st.mem), st.stack, rest)
  {
    hide ExecAll;
    var n := (Length(args) % 0x100) as Byte;
    assert Code(Call(entry, args)) + rest == [Push(entry)] + (CodeAll(args) + ([Syscall(n)] + rest));
    OneStep(sys, Push(entry), CodeAll(args) + ([Syscall(n)] + rest), st);
    if EvalAll(sys, args, st.mem).Some? {
      var (vs, m1) := EvalAll(sys, args, st.mem).value;
      CallStep(sys, n, rest, st.stack, entry, vs, m1);
    }
  }

  lemma {:induction false} PlaceMeaning(sys: System, lv: LValue, st: State, rest: seq<Instr>)
    requires SoundPlace(lv) && ScopedPlace(lv)
    ensures ExecAll(sys, CodePlace(lv) + rest, st) == Continue(sys, Place(sys, lv, st.mem), st.stack, rest)
    decreases lv
  {
    hide ExecAll;
    match lv
    case LVar(id) => OneStep(sys, Push(Address(id)), rest, st);
    case LDeref(p) => CodeMeaning(sys, p, st, rest);
  }

  lemma {:induction false} ArgsMeaning(sys: System, es: Exprs, st: State, rest: seq<Instr>)
    requires SoundAll(es) && ScopedAll(es)
    ensures ExecAll(sys, CodeAll(es) + rest, st) ==
            match EvalAll(sys, es, st.mem)
            case None => None
            case Some((vs, m)) => ExecAll(sys, rest, State(st.stack + vs, m))
    decreases es
  {
    hide ExecAll;
    match es
    case Done =>
      assert CodeAll(es) + rest == rest && st.stack + [] == st.stack;
    case More(e, more) =>
      assert CodeAll(es) + rest == Code(e) + (CodeAll(more) + rest);
      CodeMeaning(sys, e, st, CodeAll(more) + rest);
      if Eval(sys, e, st.mem).Some? {
        var (v, m1) := Eval(sys, e, st.mem).value;
        ArgsMeaning(sys, more, State(st.stack + [v], m1), rest);
        if EvalAll(sys, more, m1).Some? {
          var (vs, m2) := EvalAll(sys, more, m1).value;
          assert (st.stack + [v]) + vs == st.stack + ([v] + vs);
        }
      }
  }

  // ---- The single instructions, on a stack whose top is known ----

  lemma {:induction false} BinaryStep(sys: System, op: BinOp, rest: seq<Instr>, s: seq<Word>, x: Word, y: Word, m: Memory)
    ensures ExecAll(sys, [Binary(op)] + rest, State(s + [x] + [y], m)) ==
            match Operate(op, x, y) case None => None case Some(v) => ExecAll(sys, rest, State(s + [v], m))
  {
    hide Operate;
    OneStep(sys, Binary(op), rest, State(s + [x] + [y], m));
    assert Drop(s + [x] + [y], 2) == s;
  }

  lemma {:induction false} UnaryStep(sys: System, rest: seq<Instr>, s: seq<Word>, x: Word, m: Memory)
    ensures ExecAll(sys, [Flip] + rest, State(s + [x], m)) == ExecAll(sys, rest, State(s + [Complement(x)], m))
    ensures ExecAll(sys, [FetchTop] + rest, State(s + [x], m)) ==
            match Load(m, x) case None => None case Some(v) => ExecAll(sys, rest, State(s + [v], m))
  {
    hide Load;
    OneStep(sys, Flip, rest, State(s + [x], m));
    OneStep(sys, FetchTop, rest, State(s + [x], m));
    assert Drop(s + [x], 1) == s;
  }

  lemma {:induction false} StoreStep(sys: System, rest: seq<Instr>, s: seq<Word>, a: Word, v: Word, m: Memory)
    ensures ExecAll(sys, [StoreTop, FetchTop] + rest, State(s + [a] + [v], m)) ==
            match Store(m, a, v) case None => None case Some(m') => ExecAll(sys, rest, State(s + [v], m'))
  {
    hide Store, Load;
    assert [StoreTop, FetchTop] + rest == [StoreTop] + ([FetchTop] + rest);
    OneStep(sys, StoreTop, [FetchTop] + rest, State(s + [a] + [v], m));
    assert Drop(s + [a] + [v], 1) == s + [a] && Drop(s + [a], 1) == s;
    LoadStored(m, a, v);
    if Store(m, a, v).Some? {
      OneStep(sys, FetchTop, rest, State(s + [a], Store(m, a, v).value));
    }
  }

  lemma {:induction false} CallStep(sys: System, n: Byte, rest: seq<Instr>, s: seq<Word>, entry: Word, vs: seq<Word>, m: Memory)
    requires n as int == |vs|
    ensures ExecAll(sys, [Syscall(n)] + rest, State(s + [entry] + vs, m)) ==
            Continue(sys, if |vs| > MAX_ARGS then None else sys(entry, vs, m), s, rest)
  {
    var all := s + [entry] + vs;
    OneStep(sys, Syscall(n), rest, State(all, m));
    assert Drop(all, |vs| + 1) == s && all[|all| - |vs|..] == vs && Top(all, |vs|) == entry;
  }

  lemma {:induction false} PreMeaning(sys: System, id: Id, up: bool, st: State, rest: seq<Instr>)
    requires id.Var? && HasCode(id)
    ensures ExecAll(sys, Code(PreStep(LVar(id), up)) + rest, st) ==
            Continue(sys, Eval(sys, PreStep(LVar(id), up), st.mem), st.stack, rest)
  {
    hide ExecAll, Load, Store, Operate;
    var a, op := Address(id), Delta(up);
    var tail := [StoreTop, FetchTop] + rest;
    assert Code(PreStep(LVar(id), up)) + rest == [Push(a)] + ([Fetch(a)] + ([Push(1)] + ([Binary(op)] + tail)));
    OneStep(sys, Push(a), [Fetch(a)] + ([Push(1)] + ([Binary(op)] + tail)), st);
    OneStep(sys, Fetch(a), [Push(1)] + ([Binary(op)] + tail), State(st.stack + [a], st.mem));
    if Load(st.mem, a).Some? {
      var v := Load(st.mem, a).value;
      OneStep(sys, Push(1), [Binary(op)] + tail, State(st.stack + [a] + [v], st.mem));
      BinaryStep(sys, op, tail, st.stack + [a], v, 1, st.mem);
      DeltaIsDefined(up, v);
      var v' := Operate(op, v, 1).value;
      LoadStored(st.mem, a, v');
      StoreStep(sys, rest, st.stack, a, v', st.mem);
    }
  }

  lemma {:induction false} DeltaIsDefined(up: bool, v: Word)
    ensures Operate(Delta(up), v, 1).Some?
  {
  }

  lemma {:induction false} PostMeaning(sys: System, id: Id, up: bool, st: State, rest: seq<Instr>)
    requires id.Var? && HasCode(id)
    ensures ExecAll(sys, Code(PostStep(id, up)) + rest, st) ==
            Continue(sys, Eval(sys, PostStep(id, up), st.mem), st.stack, rest)
  {
    hide ExecAll, Load, Store, Operate;
    var a, op := Address(id), Delta(up);
    var tail := [StoreTop] + ([Pop] + rest);
    assert Code(PostStep(id, up)) + rest ==
           [Fetch(a)] + ([Push(a)] + ([Fetch(a)] + ([Push(1)] + ([Binary(op)] + tail))));
    OneStep(sys, Fetch(a), [Push(a)] + ([Fetch(a)] + ([Push(1)] + ([Binary(op)] + tail))), st);
    if Load(st.mem, a).Some? {
      var v := Load(st.mem, a).value;
      var s := st.stack + [v];
      OneStep(sys, Push(a), [Fetch(a)] + ([Push(1)] + ([Binary(op)] + tail)), State(s, st.mem));
      OneStep(sys, Fetch(a), [Push(1)] + ([Binary(op)] + tail), State(s + [a], st.mem));
      OneStep(sys, Push(1), [Binary(op)] + tail, State(s + [a] + [v], st.mem));
      BinaryStep(sys, op, tail, s + [a], v, 1, st.mem);
      DeltaIsDefined(up, v);
      var v' := Operate(op, v, 1).value;
      LoadStored(st.mem, a, v');
      OneStep(sys, StoreTop, [Pop] + rest, State(s + [a] + [v'], st.mem));
      assert Drop(s + [a] + [v'], 1) == s + [a] && Drop(s + [a], 1) == s;
      OneStep(sys, Pop, rest, State(s + [a], Store(st.mem, a, v').value));
    }
  }

  // A whole command line leaves its last value on the stack.
  lemma {:induction false} LineMeaning(sys: System, es: Exprs, st: State)
    requires SoundAll(es) && ScopedAll(es) && es.More?
    ensures ExecAll(sys, CodeLine(es), st) ==
            match EvalLine(sys, es, st.mem) case None => None case Some((v, m)) => Some(State(st.stack + [v], m))
    decreases es
  {
    var rest := if es.rest.Done? then [] else [Pop] + CodeLine(es.rest);
    assert CodeLine(es) == Code(es.e) + rest;
    CodeMeaning(sys, es.e, st, rest);
    if Eval(sys, es.e, st.mem).Some? && es.rest.More? {
      var (v, m1) := Eval(sys, es.e, st.mem).value;
      OneStep(sys, Pop, CodeLine(es.rest), State(st.stack + [v], m1));
      assert Drop(st.stack + [v], 1) == st.stack;
      LineMeaning(sys, es.rest, State(st.stack, m1));
    }
  }

  // Compiler correctness, from the parser's tree to the final state.
  lemma {:induction false} CompilerCorrect(sys: System, es: Exprs, m: Memory)
    requires SoundAll(es) && es.More?
    ensures ScopedAll(es)
    ensures ExecAll(sys, GenLine(Check(LowerAll(es), false)), State([], m)) ==
            match EvalLine(sys, es, m) case None => None case Some((v, m')) => Some(State([v], m'))
  {
    SoundAllAreScoped(es);
    TreeLine(es);
    LineMeaning(sys, es, State([], m));
    if EvalLine(sys, es, m).Some? {
      assert [] + [EvalLine(sys, es, m).value.0] == [EvalLine(sys, es, m).value.0];
    }
  }
}
