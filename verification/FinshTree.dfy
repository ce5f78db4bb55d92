/** Syntax trees of the finsh shell in first-child / next-sibling form, the type check that annotates
    them, and the instructions the compiler emits (MDK/components/finsh/finsh_compiler.c), restricted
    to nodes whose data type is a double word. */
module FinshTree {
  import opened FinshLang

  datatype Kind =
    | KId | KLit(lit: LitKind) | KBin(op: BinOp) | KNot | KAssign
    | KPreInc | KPreDec | KInc | KDec | KGetValue | KGetAddr | KFunc

  datatype DataType = Void | Dword

  // One node: `isAddr` is the ADDRESS bit of idtype, the other idtype bits are the constructor of `id`.
  datatype Info = Info(kind: Kind, dataType: DataType, isAddr: bool, id: Id, value: Word)

  datatype Tree = Nil | Node(info: Info, child: Tree, sibling: Tree)

  // ---- finsh_type_check ----

  function AddressForChild(kind: Kind, isAddr: bool): bool
  {
    if kind.KAssign? || kind.KPreInc? || kind.KPreDec? || kind.KGetAddr? then true
    else if kind.KGetValue? && isAddr then false
    else isAddr
  }

  function LeafType(info: Info): DataType
  {
    if info.kind.KId? then (if IsVariable(info.id) then Dword else info.dataType)
    else if info.kind.KLit? then Dword
    else info.dataType
  }

  function Annotate(info: Info, child: Tree, isAddr: bool): Info
  {
    info.(isAddr := if info.id.Func? && !info.isAddr then info.isAddr else info.isAddr || isAddr,
          dataType := if child.Nil? then LeafType(info) else child.info.dataType)
  }

  function Check(t: Tree, isAddr: bool): (r: Tree)
    ensures r.Nil? <==> t.Nil?
  {
    match t
    case Nil => Nil
    case Node(info, child, sibling) =>
      var child' := Check(child, AddressForChild(info.kind, isAddr));
      Node(Annotate(info, child', isAddr), child', Check(sibling, false))
  }

  // ---- finsh_compile ----

  datatype Instr =
    | Noop
    | Binary(op: BinOp)
    | Flip                 // bw_dword
    | Push(v: Word)        // ld_dword v
    | Fetch(a: Word)       // ld_value_dword &v
    | StoreTop             // st_dword
    | Pop
    | Syscall(n: Byte)
    | FetchTop             // ld_value_dword_stack

  // A variable of type void* is given the type DWORD by the check but has no case in the compiler.
  predicate Emits(ty: VarType)
  {
    !ty.VoidPtr?
  }

  function IdCode(info: Info): seq<Instr>
  {
    match info.id
    case NoId => []
    case Func(entry) => [Push(entry)]
    case Var(ty, value) => if !Emits(ty) then [] else if info.isAddr then [Push(value)] else [Fetch(value)]
    case SysVar(ty, target, _) => if !Emits(ty) then [] else if info.isAddr then [Push(target)] else [Fetch(target)]
  }

  // ++ and -- read the identifier as a shell variable whatever it is.
  function StepAddress(id: Id): Word
  {
    match id
    case NoId => 0
    case Var(_, value) => value
    case SysVar(_, _, shadow) => shadow
    case Func(entry) => entry
  }

  function Siblings(t: Tree): nat
  {
    if t.Nil? then 0 else 1 + Siblings(t.sibling)
  }

  function NodeCode(info: Info, child: Tree): seq<Instr>
  {
    match info.kind
    case KId => IdCode(info)
    case KLit(_) => [Push(info.value)]
    case KBin(op) => if info.dataType.Dword? then [Binary(op)] else []
    case KNot => if info.dataType.Dword? then [Flip] else []
    case KFunc => if child.Nil? then [] else [Syscall((Siblings(child.sibling) % 0x100) as Byte)]
    case KAssign =>
      if !child.Nil? && (child.info.kind.KId? || child.info.kind.KGetValue?) && child.info.dataType.Dword? then [StoreTop, FetchTop]
      else []
    case KPreInc => if StepsId(info, child) then PreCode(child.info.id, Add) else []
    case KPreDec => if StepsId(info, child) then PreCode(child.info.id, Sub) else []
    case KInc => if StepsId(info, child) then PostCode(child.info.id, Add) else []
    case KDec => if StepsId(info, child) then PostCode(child.info.id, Sub) else []
    case KGetValue => if !info.isAddr && info.dataType.Dword? then [FetchTop] else []
    case KGetAddr => []
  }

  predicate StepsId(info: Info, child: Tree)
  {
    !child.Nil? && child.info.kind.KId? && info.dataType.Dword?
  }

  function PreCode(id: Id, op: BinOp): seq<Instr>
  {
    [Fetch(StepAddress(id)), Push(1), Binary(op), StoreTop, FetchTop]
  }

  function PostCode(id: Id, op: BinOp): seq<Instr>
  {
    [Push(StepAddress(id)), Fetch(StepAddress(id)), Push(1), Binary(op), StoreTop, Pop]
  }

  // Child first, then the node, then its sibling.
  function Gen(t: Tree): seq<Instr>
  {
    match t
    case Nil => []
    case Node(info, child, sibling) => Gen(child) + NodeCode(info, child) + Gen(sibling)
  }

  // finsh_compiler_run: each statement loses its sibling link before it is compiled; its value is
  // popped unless it is the last one.
  function GenLine(t: Tree): seq<Instr>
  {
    match t
    case Nil => []
    case Node(info, child, sibling) =>
      Gen(Node(info, child, Nil)) + (if sibling.Nil? then [] else [Pop]) + GenLine(sibling)
  }

  // ---- The trees that the parser builds for expressions ----

  function Leaf(kind: Kind, id: Id, value: Word, sibling: Tree): Tree
  {
    Node(Info(kind, Void, false, id, value), Nil, sibling)
  }

  function Sys(kind: Kind, child: Tree, sibling: Tree): Tree
  {
    Node(Info(kind, Void, false, NoId, 0), child, sibling)
  }

  function Lower(e: Expr, sibling: Tree): (t: Tree)
    ensures t.Node?
    decreases e
  {
    match e
    case Lit(kind, v) => Leaf(KLit(kind), NoId, v, sibling)
    case Read(id) => Leaf(KId, id, 0, sibling)
    case Bin(op, a, b) => Sys(KBin(op), Lower(a, Lower(b, Nil)), sibling)
    case Not(a) => Sys(KNot, Lower(a, Nil), sibling)
    case Assign(lv, e') => Sys(KAssign, LowerPlace(lv, Lower(e', Nil)), sibling)
    case PreStep(lv, up) => Sys(if up then KPreInc else KPreDec, LowerPlace(lv, Nil), sibling)
    case PostStep(id, up) => Sys(if up then KInc else KDec, Leaf(KId, id, 0, Nil), sibling)
    case Deref(p) => Sys(KGetValue, Lower(p, Nil), sibling)
    case AddrOf(lv) => Sys(KGetAddr, LowerPlace(lv, Nil), sibling)
    case Call(entry, args) => Sys(KFunc, Leaf(KId, Func(entry), 0, LowerAll(args)), sibling)
  }

  function LowerPlace(lv: LValue, sibling: Tree): (t: Tree)
    ensures t.Node?
    decreases lv
  {
    match lv
    case LVar(id) => Leaf(KId, id, 0, sibling)
    case LDeref(p) => Sys(KGetValue, Lower(p, Nil), sibling)
  }

  function LowerAll(es: Exprs): Tree
    decreases es
  {
    match es
    case Done => Nil
    case More(e, rest) => Lower(e, LowerAll(rest))
  }
}
