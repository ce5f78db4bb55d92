/** The virtual machine and the compiler as the shell runs them: a 64-slot stack and a 128-byte text
    segment in arrays, the stack pointer and the program counter as fields, the syntax tree as linked
    nodes that the type check rewrites in place (finsh_vm.c, finsh_ops.c, finsh_compiler.c). */
module FinshMachine {
  import opened FinshLang
  import opened FinshTree
  import opened FinshCorrect
  import opened FinshCode

  const FINSH_STACK_MAX := 64
  const FINSH_TEXT_MAX := 128

  // ---- finsh_vm.c and finsh_ops.c ----

  class Vm {
    const text: array<Byte>
    const stack: array<Word>
    var sp: nat
    var pc: nat
    var mem: Memory

    constructor (text: array<Byte>, mem: Memory)
      requires text.Length == FINSH_TEXT_MAX
      ensures Valid() && this.text == text && this.mem == mem && fresh(stack)
    {
      this.text := text;
      this.mem := mem;
      stack := new Word[FINSH_STACK_MAX];
      sp, pc := 0, 0;
    }

    ghost predicate Valid()
      reads this
    {
      text.Length == FINSH_TEXT_MAX && stack.Length == FINSH_STACK_MAX && sp <= stack.Length && pc <= text.Length
    }

    ghost function St(): State
      requires Valid()
      reads this, stack
    {
      State(stack[..sp], mem)
    }

    // OP_BIN_DWORD
    method OpBinary(sys: System, op: BinOp)
      requires Valid() && Exec(sys, Binary(op), St()).Some?
      modifies this`sp, stack
      ensures Valid() && Some(St()) == old(Exec(sys, Binary(op), St())) && sp <= old(sp)
    {
      stack[sp - 2] := Operate(op, stack[sp - 2], stack[sp - 1]).value;
      sp := sp - 1;
      assert stack[..sp] == Drop(old(stack[..sp]), 2) + [stack[sp - 1]];
    }

    method OpBitwise(sys: System)
      requires Valid() && Exec(sys, Flip, St()).Some?
      modifies stack
      ensures Valid() && Some(St()) == old(Exec(sys, Flip, St()))
    {
      stack[sp - 1] := Complement(stack[sp - 1]);
      assert stack[..sp] == Drop(old(stack[..sp]), 1) + [stack[sp - 1]];
    }

    method Push32(v: Word)
      requires Valid() && sp < stack.Length
      modifies this`sp, stack
      ensures Valid() && stack[..sp] == old(stack[..sp]) + [v] && sp == old(sp) + 1
    {
      stack[sp] := v;
      sp := sp + 1;
    }

    method OpLdValue(sys: System, a: Word)
      requires Valid() && sp < stack.Length && Exec(sys, FinshTree.Fetch(a), St()).Some?
      modifies this`sp, stack
      ensures Valid() && Some(St()) == old(Exec(sys, FinshTree.Fetch(a), St())) && sp == old(sp) + 1
    {
      Push32(Load(mem, a).value);
    }

    method OpSt(sys: System)
      requires Valid() && Exec(sys, StoreTop, St()).Some?
      modifies this`sp, this`mem
      ensures Valid() && Some(St()) == old(Exec(sys, StoreTop, St())) && sp <= old(sp)
    {
      mem := Store(mem, stack[sp - 2], stack[sp - 1]).value;
      sp := sp - 1;
      assert stack[..sp] == Drop(old(stack[..sp]), 1);
    }

    method OpPop(sys: System)
      requires Valid() && Exec(sys, Pop, St()).Some?
      modifies this`sp
      ensures Valid() && Some(St()) == old(Exec(sys, Pop, St())) && sp <= old(sp)
    {
      sp := sp - 1;
      assert stack[..sp] == Drop(old(stack[..sp]), 1);
    }

    method OpLdValueStack(sys: System)
      requires Valid() && Exec(sys, FetchTop, St()).Some?
      modifies stack
      ensures Valid() && Some(St()) == old(Exec(sys, FetchTop, St()))
    {
      stack[sp - 1] := Load(mem, stack[sp - 1]).value;
      assert stack[..sp] == Drop(old(stack[..sp]), 1) + [stack[sp - 1]];
    }

    // The arguments are popped into an array of 16, last one first.
    method PopArguments(n: int) returns (parameterv: array<Word>)
      requires Valid() && 0 <= n <= MAX_ARGS && n + 1 <= sp
      modifies this`sp
      ensures Valid() && parameterv.Length == MAX_ARGS && fresh(parameterv)
      ensures sp == old(sp) - n - 1 && parameterv[..n] == stack[old(sp) - n..old(sp)]
    {
      parameterv := new Word[MAX_ARGS];
      var i := 0;
      sp := sp - 1;
      while i < n
        invariant 0 <= i <= n && sp + i == old(sp) - 1
        invariant parameterv[n - i..n] == stack[old(sp) - i..old(sp)]
      {
        parameterv[n - 1 - i] := stack[sp];
        assert parameterv[n - 1 - i..n] == [stack[sp]] + parameterv[n - i..n];
        sp := sp - 1;
        i := i + 1;
      }
    }

    // OP_call
    method OpCall(sys: System, parameters: Byte)
      requires Valid() && Exec(sys, Syscall(parameters), St()).Some?
      modifies this`sp, this`mem, stack
      ensures Valid() && Some(St()) == old(Exec(sys, Syscall(parameters), St())) && sp <= old(sp)
    {
      var n := parameters as int;
      ghost var s := stack[..sp];
      var parameterv := PopArguments(n);
      assert parameterv[..n] == s[|s| - n..] && stack[sp] == Top(s, n);
      var (v, mem') := sys(stack[sp], parameterv[..n], mem).value;
      stack[sp], mem := v, mem';
      sp := sp + 1;
      assert stack[..sp] == Drop(s, n + 1) + [v];
    }

    // op_table[op](), operands included
    method Dispatch(sys: System, op: Byte)
      requires Valid() && 0 < pc && op == text[pc - 1] && 5 * sp <= pc - 1
      requires Decode(text[..], pc - 1).Some?
      requires Exec(sys, Decode(text[..], pc - 1).value, St()).Some?
      modifies this`sp, this`pc, this`mem, stack
      ensures Valid() && pc == old(pc) - 1 + |Encode(Decode(text[..], old(pc) - 1).value)| && 5 * sp <= pc
      ensures Some(St()) == old(Exec(sys, Decode(text[..], pc - 1).value, St()))
    {
      ghost var i := Decode(text[..], pc - 1).value;
      if op == NOOP {
      } else if BinOpOf(op).Some? {
        OpBinary(sys, BinOpOf(op).value);
      } else if op == BITWISE_DWORD {
        OpBitwise(sys);
      } else if op == LD_DWORD {
        Push32(Get32(text[..], pc));
        pc := pc + 4;
      } else if op == LD_VALUE_DWORD {
        OpLdValue(sys, Get32(text[..], pc));
        pc := pc + 4;
      } else if op == ST_DWORD {
        OpSt(sys);
      } else if op == POP {
        OpPop(sys);
      } else if op == SYSCALL {
        var parameters := text[pc];
        pc := pc + 1;
        OpCall(sys, parameters);
      } else {
        OpLdValueStack(sys);
      }
    }

    // finsh_vm_run.  No bounds check guards the stack: 128 bytes of code cannot push 64 values.
    method Run(sys: System)
      requires Valid() && RunText(sys, text[..], 0, State([], mem)).Some?
      modifies this`sp, this`pc, this`mem, stack
      ensures Valid() && Some(St()) == RunText(sys, text[..], 0, State([], old(mem)))
      ensures 5 * sp <= FINSH_TEXT_MAX
    {
      hide RunText, Exec, Decode, Encode;
      sp, pc := 0, 0;
      assert stack[..sp] == [];
      while 0 <= pc < FINSH_TEXT_MAX
        invariant Valid() && 5 * sp <= pc
        invariant RunText(sys, text[..], pc, St()).Some?
        invariant RunText(sys, text[..], pc, St()) == RunText(sys, text[..], 0, State([], old(mem)))
        decreases FINSH_TEXT_MAX - pc
      {
        RunTextStep(sys, text[..], pc, St());
        var op := text[pc];
        pc := pc + 1;
        Dispatch(sys, op);
      }
      RunTextEnd(sys, text[..], St());
    }
  }

  // ---- finsh_compiler.c ----

  // struct finsh_node
  class FinshNode {
    var kind: Kind
    var dataType: DataType
    var isAddr: bool
    var id: Id
    var value: Word
    var child: FinshNode?
    var sibling: FinshNode?
    ghost var repr: set<FinshNode>

    ghost predicate Valid()
      reads this, repr
      decreases repr
    {
      && this in repr
      && (child != null ==> child in repr && child.repr < repr && this !in child.repr && child.Valid())
      && (sibling != null ==> sibling in repr && sibling.repr < repr && this !in sibling.repr && sibling.Valid())
      && (child != null && sibling != null ==> child.repr !! sibling.repr)
    }

    ghost function Self(): Info
      reads this
    {
      Info(kind, dataType, isAddr, id, value)
    }

    ghost function Tree(): Tree
      requires Valid()
      reads this, repr
      decreases repr
    {
      Node(Self(), if child == null then Nil else child.Tree(), if sibling == null then Nil else sibling.Tree())
    }
  }

  ghost function TreeOf(n: FinshNode?): Tree
    requires n != null ==> n.Valid()
    reads if n == null then {} else n.repr
    reads n
  {
    if n == null then Nil else n.Tree()
  }

  // finsh_type_check
  method TypeCheck(node: FinshNode?, isAddr: bool)
    requires node != null ==> node.Valid()
    modifies if node == null then {} else node.repr
    ensures node != null ==> node.Valid() && node.repr == old(node.repr)
    ensures TreeOf(node) == Check(old(TreeOf(node)), isAddr)
    decreases if node == null then {} else node.repr
  {
    hide Annotate, AddressForChild;
    if node != null {
      var childIsAddr := ChildAddress(node.kind, isAddr);
      TypeCheck(node.child, childIsAddr);
      TypeCheck(node.sibling, false);
      Attributes(node, isAddr);
    }
  }

  // Whether the child is wanted as an address.
  method ChildAddress(kind: Kind, isAddr: bool) returns (r: bool)
    ensures r == AddressForChild(kind, isAddr)
  {
    if kind.KAssign? || kind.KPreInc? || kind.KPreDec? || kind.KGetAddr? {
      return true;
    } else if kind.KGetValue? && isAddr {
      return false;
    }
    return isAddr;
  }

  // The attributes of one node, once its child has its own.
  method Attributes(node: FinshNode, isAddr: bool)
    requires node.Valid()
    modifies node`isAddr, node`dataType
    ensures node.Valid()
    ensures node.Self() == Annotate(old(node.Self()), old(TreeOf(node.child)), isAddr)
    ensures TreeOf(node.child) == old(TreeOf(node.child)) && TreeOf(node.sibling) == old(TreeOf(node.sibling))
  {
    if !(node.id.Func? && !node.isAddr) {
      node.isAddr := node.isAddr || isAddr;
    }
    if node.child != null {
      node.dataType := node.child.dataType;
      return;
    }
    if node.kind.KId? {
      if IsVariable(node.id) {
        node.dataType := Dword;
      }
    } else if node.kind.KLit? {
      node.dataType := Dword;
    }
  }

  // The segment with `bytes` at p.
  function Written(t: seq<Byte>, p: nat, bytes: seq<Byte>): seq<Byte>
    requires p + |bytes| <= |t|
  {
    t[..p] + bytes + t[p + |bytes|..]
  }

  lemma {:induction false} WrittenTwice(t: seq<Byte>, p: nat, b: seq<Byte>, c: seq<Byte>)
    requires p + |b| + |c| <= |t|
    ensures Written(Written(t, p, b), p + |b|, c) == Written(t, p, b + c)
  {
    var u := Written(t, p, b);
    assert u[..p + |b|] == t[..p] + b;
    assert u[p + |b| + |c|..] == t[p + |b| + |c|..];
  }

  lemma {:induction false} WrittenNothing(t: seq<Byte>, p: nat)
    requires p <= |t|
    ensures Written(t, p, []) == t
  {
  }

  // The text segment under construction; finsh_compile_pc is `pc`.
  class Compiler {
    const text: array<Byte>
    var pc: nat

    constructor ()
      ensures text.Length == FINSH_TEXT_MAX && fresh(text) && pc == 0
    {
      text := new Byte[FINSH_TEXT_MAX];
      pc := 0;
    }

    method CodeByte(x: Byte)
      requires pc < text.Length
      modifies this, text
      ensures pc == old(pc) + 1 && text[..] == Written(old(text[..]), old(pc), [x])
    {
      text[pc] := x;
      pc := pc + 1;
    }

    method CodeDword(v: Word)
      requires pc + 4 <= text.Length
      modifies this, text
      ensures pc == old(pc) + 4 && text[..] == Written(old(text[..]), old(pc), Little(v))
    {
      text[pc], text[pc + 1], text[pc + 2], text[pc + 3] := Byte0(v), Byte1(v), Byte2(v), Byte3(v);
      pc := pc + 4;
    }

    method CodeOperand(op: Byte, v: Word)
      requires pc + 5 <= text.Length
      modifies this, text
      ensures pc == old(pc) + 5 && text[..] == Written(old(text[..]), old(pc), [op] + Little(v))
    {
      WrittenTwice(text[..], pc, [op], Little(v));
      CodeByte(op);
      CodeDword(v);
    }

    method Emit(i: Instr)
      requires pc + |Encode(i)| <= text.Length
      modifies this, text
      ensures pc == old(pc) + |Encode(i)| && text[..] == Written(old(text[..]), old(pc), Encode(i))
    {
      hide Written, Little, OpByte;
      match i
      case Noop => CodeByte(NOOP);
      case Binary(op) => CodeByte(OpByte(op));
      case Flip => CodeByte(BITWISE_DWORD);
      case Push(v) => CodeOperand(LD_DWORD, v);
      case Fetch(a) => CodeOperand(LD_VALUE_DWORD, a);
      case StoreTop => CodeByte(ST_DWORD);
      case Pop => CodeByte(POP);
      case Syscall(n) =>
        WrittenTwice(text[..], pc, [SYSCALL], [n]);
        assert [SYSCALL] + [n] == [SYSCALL, n];
        CodeByte(SYSCALL);
        CodeByte(n);
      case FetchTop => CodeByte(LD_VALUE_DWORD_STACK);
    }

    // One instruction of a longer code: `done` has been emitted since the segment was t with pc at p.
    method Add(i: Instr, ghost t: seq<Byte>, ghost p: nat, ghost done: seq<Instr>)
      requires pc + |Encode(i)| <= text.Length == |t|
      requires pc == p + |EncodeAll(done)| && text[..] == Written(t, p, EncodeAll(done))
      modifies this, text
      ensures pc == old(pc) + |Encode(i)| == p + |EncodeAll(done + [i])| <= |t|
      ensures text[..] == Written(t, p, EncodeAll(done + [i]))
    {
      hide Written, Encode;
      EncodeConcat(done, [i]);
      EncodeOne(i);
      WrittenTwice(t, p, EncodeAll(done), Encode(i));
      Emit(i);
    }

    // st_dword, then "load value again"
    method CompileStore()
      requires pc + |EncodeAll([StoreTop, FetchTop])| <= text.Length
      modifies this, text
      ensures pc == old(pc) + |EncodeAll([StoreTop, FetchTop])| <= text.Length
      ensures text[..] == Written(old(text[..]), old(pc), EncodeAll([StoreTop, FetchTop]))
    {
      hide Written, Encode, EncodeAll;
      EncodeLengths(NoId, BinOp.Add);
      ghost var t, p := text[..], pc;
      WrittenNothing(t, p);
      Add(StoreTop, t, p, []);
      Add(FetchTop, t, p, [] + [StoreTop]);
      assert [] + [StoreTop] + [FetchTop] == [StoreTop, FetchTop];
    }

    // The value plus or minus one is stored and loaded again; the address is already on the stack.
    method CompilePre(id: Id, op: BinOp)
      requires pc + |EncodeAll(PreCode(id, op))| <= text.Length
      modifies this, text
      ensures pc == old(pc) + |EncodeAll(PreCode(id, op))| <= text.Length
      ensures text[..] == Written(old(text[..]), old(pc), EncodeAll(PreCode(id, op)))
    {
      hide Written, Encode, EncodeAll;
      EncodeLengths(id, op);
      ghost var t, p := text[..], pc;
      ghost var done: seq<Instr> := [];
      WrittenNothing(t, p);
      Add(FinshTree.Fetch(StepAddress(id)), t, p, done);
      done := done + [FinshTree.Fetch(StepAddress(id))];
      Add(Push(1), t, p, done);
      done := done + [Push(1)];
      Add(Binary(op), t, p, done);
      done := done + [Binary(op)];
      Add(StoreTop, t, p, done);
      done := done + [StoreTop];
      Add(FetchTop, t, p, done);
      assert done + [FetchTop] == PreCode(id, op);
    }

    method CompilePost(id: Id, op: BinOp)
      requires pc + |EncodeAll(PostCode(id, op))| <= text.Length
      modifies this, text
      ensures pc == old(pc) + |EncodeAll(PostCode(id, op))| <= text.Length
      ensures text[..] == Written(old(text[..]), old(pc), EncodeAll(PostCode(id, op)))
    {
      hide Written, Encode, EncodeAll;
      EncodeLengths(id, op);
      ghost var t, p := text[..], pc;
      ghost var done: seq<Instr> := [];
      WrittenNothing(t, p);
      Add(Push(StepAddress(id)), t, p, done);
      done := done + [Push(StepAddress(id))];
      Add(FinshTree.Fetch(StepAddress(id)), t, p, done);
      done := done + [FinshTree.Fetch(StepAddress(id))];
      Add(Push(1), t, p, done);
      done := done + [Push(1)];
      Add(Binary(op), t, p, done);
      done := done + [Binary(op)];
      Add(StoreTop, t, p, done);
      done := done + [StoreTop];
      Add(Pop, t, p, done);
      assert done + [Pop] == PostCode(id, op);
    }

    // One instruction, or none.
    method EmitIf(emit: bool, i: Instr)
      requires emit ==> pc + |Encode(i)| <= text.Length
      requires pc <= text.Length
      modifies this, text
      ensures var code := if emit then [i] else [];
              pc == old(pc) + |EncodeAll(code)| <= text.Length && text[..] == Written(old(text[..]), old(pc), EncodeAll(code))
    {
      hide Written, Encode;
      if emit {
        EncodeOne(i);
        Emit(i);
      } else {
        WrittenNothing(text[..], pc);
      }
    }

    // Loads an identifier: nothing for void*, its address, or its value.
    method CompileId(node: FinshNode)
      requires pc + |EncodeAll(IdCode(node.Self()))| <= text.Length
      modifies this, text
      ensures pc == old(pc) + |EncodeAll(IdCode(node.Self()))| <= text.Length
      ensures text[..] == Written(old(text[..]), old(pc), EncodeAll(IdCode(node.Self())))
    {
      hide Written, Encode;
      match node.id
      case NoId => WrittenNothing(text[..], pc);
      case Func(entry) =>
        EncodeOne(Push(entry));
        Emit(Push(entry));
      case Var(ty, value) =>
        EncodeOne(Push(value)); EncodeOne(FinshTree.Fetch(value));
        EmitIf(Emits(ty), if node.isAddr then Push(value) else FinshTree.Fetch(value));
      case SysVar(ty, target, _) =>
        EncodeOne(Push(target)); EncodeOne(FinshTree.Fetch(target));
        EmitIf(Emits(ty), if node.isAddr then Push(target) else FinshTree.Fetch(target));
    }

    // The number of siblings behind the first child.
    method CountParameters(first: FinshNode) returns (parameters: nat)
      requires first.Valid()
      ensures parameters == Siblings(TreeOf(first.sibling))
    {
      parameters := 0;
      var sibling := first.sibling;
      while sibling != null
        invariant sibling != null ==> sibling.Valid()
        invariant parameters + Siblings(TreeOf(sibling)) == Siblings(TreeOf(first.sibling))
        decreases if sibling == null then {} else sibling.repr
      {
        parameters := parameters + 1;
        sibling := sibling.sibling;
      }
    }

    // ++ and --, before or after: only on an identifier of a known type.
    method CompileStep(node: FinshNode)
      requires node.Valid() && (node.kind.KPreInc? || node.kind.KPreDec? || node.kind.KInc? || node.kind.KDec?)
      requires pc + |EncodeAll(NodeCode(node.Self(), TreeOf(node.child)))| <= text.Length
      modifies this, text
      ensures var code := EncodeAll(NodeCode(node.Self(), TreeOf(node.child)));
              pc == old(pc) + |code| <= text.Length && text[..] == Written(old(text[..]), old(pc), code)
    {
      hide Written, Encode, EncodeAll, PreCode, PostCode, IdCode, Siblings;
      WrittenNothing(text[..], pc);
      EncodeLengths(NoId, BinOp.Add);
      if node.child != null && node.child.kind.KId? && node.dataType.Dword? {
        match node.kind
        case KPreInc => CompilePre(node.child.id, BinOp.Add);
        case KPreDec => CompilePre(node.child.id, BinOp.Sub);
        case KInc => CompilePost(node.child.id, BinOp.Add);
        case KDec => CompilePost(node.child.id, BinOp.Sub);
      }
    }

    method CompileOperator(node: FinshNode)
      requires node.Valid() && (node.kind.KBin? || node.kind.KNot? || node.kind.KGetValue?)
      requires pc + |EncodeAll(NodeCode(node.Self(), TreeOf(node.child)))| <= text.Length
      modifies this, text
      ensures var code := EncodeAll(NodeCode(node.Self(), TreeOf(node.child)));
              pc == old(pc) + |code| <= text.Length && text[..] == Written(old(text[..]), old(pc), code)
    {
      hide Written, Encode, PreCode, PostCode, IdCode, Siblings, StepsId;
      match node.kind
      case KBin(op) =>
        EncodeOne(Binary(op));
        EmitIf(node.dataType.Dword?, Binary(op));
      case KNot =>
        EncodeOne(Flip);
        EmitIf(node.dataType.Dword?, Flip);
      case KGetValue =>
        EncodeOne(FetchTop);
        EmitIf(!node.isAddr && node.dataType.Dword?, FetchTop);
    }

    method CompileCall(node: FinshNode)
      requires node.Valid() && node.kind.KFunc?
      requires pc + |EncodeAll(NodeCode(node.Self(), TreeOf(node.child)))| <= text.Length
      modifies this, text
      ensures var code := EncodeAll(NodeCode(node.Self(), TreeOf(node.child)));
              pc == old(pc) + |code| <= text.Length && text[..] == Written(old(text[..]), old(pc), code)
    {
      hide Written, Encode, Siblings;
      WrittenNothing(text[..], pc);
      if node.child != null {
        var parameters := CountParameters(node.child);
        EncodeOne(Syscall((parameters % 0x100) as Byte));
        Emit(Syscall((parameters % 0x100) as Byte));
      }
    }

    method CompileAssign(node: FinshNode)
      requires node.Valid() && node.kind.KAssign?
      requires pc + |EncodeAll(NodeCode(node.Self(), TreeOf(node.child)))| <= text.Length
      modifies this, text
      ensures var code := EncodeAll(NodeCode(node.Self(), TreeOf(node.child)));
              pc == old(pc) + |code| <= text.Length && text[..] == Written(old(text[..]), old(pc), code)
    {
      hide Written, Encode, EncodeAll;
      WrittenNothing(text[..], pc);
      EncodeLengths(NoId, BinOp.Add);
      if node.child != null && (node.child.kind.KId? || node.child.kind.KGetValue?) && node.child.dataType.Dword? {
        CompileStore();
      }
    }

    // The `switch (node->node_type)` of finsh_compile.
    method CompileNode(node: FinshNode)
      requires node.Valid()
      requires pc + |EncodeAll(NodeCode(node.Self(), TreeOf(node.child)))| <= text.Length
      modifies this, text
      ensures var code := EncodeAll(NodeCode(node.Self(), TreeOf(node.child)));
              pc == old(pc) + |code| <= text.Length && text[..] == Written(old(text[..]), old(pc), code)
    {
      hide Written, Encode, EncodeAll, PreCode, PostCode, IdCode, Siblings, StepsId;
      match node.kind
      case KId => CompileId(node);
      case KLit(_) =>
        EncodeOne(Push(node.value));
        Emit(Push(node.value));
      case KFunc => CompileCall(node);
      case KAssign => CompileAssign(node);
      case KBin(_) => CompileOperator(node);
      case KNot => CompileOperator(node);
      case KGetValue => CompileOperator(node);
      case KGetAddr =>
        WrittenNothing(text[..], pc);
        EncodeLengths(NoId, BinOp.Add);
      case _ => CompileStep(node);
    }

    // finsh_compile: child, node, sibling
    method Compile(node: FinshNode?)
      requires node != null ==> node.Valid()
      requires pc + |EncodeAll(Gen(TreeOf(node)))| <= text.Length
      modifies this, text
      ensures var code := EncodeAll(Gen(TreeOf(node)));
              pc == old(pc) + |code| <= text.Length && text[..] == Written(old(text[..]), old(pc), code)
      decreases if node == null then {} else node.repr, 1
    {
      hide Written, Encode, EncodeAll, NodeCode;
      if node == null {
        WrittenNothing(text[..], pc);
        EncodeLengths(NoId, BinOp.Add);
        return;
      }
      ghost var t, p := text[..], pc;
      ghost var head, s := Gen(TreeOf(node.child)) + NodeCode(node.Self(), TreeOf(node.child)), Gen(TreeOf(node.sibling));
      EncodeConcat(head, s);
      CompileHead(node);
      WrittenTwice(t, p, EncodeAll(head), EncodeAll(s));
      if node.sibling != null {
        Compile(node.sibling);
      } else {
        WrittenNothing(text[..], pc);
        EncodeLengths(NoId, BinOp.Add);
      }
    }

    // The child, then the node itself.
    method CompileHead(node: FinshNode)
      requires node.Valid()
      requires pc + |EncodeAll(Gen(TreeOf(node.child)) + NodeCode(node.Self(), TreeOf(node.child)))| <= text.Length
      modifies this, text
      ensures var code := EncodeAll(Gen(TreeOf(node.child)) + NodeCode(node.Self(), TreeOf(node.child)));
              pc == old(pc) + |code| <= text.Length && text[..] == Written(old(text[..]), old(pc), code)
      decreases node.repr, 0
    {
      hide Written, Encode, EncodeAll, NodeCode, Gen;
      ghost var t, p := text[..], pc;
      ghost var c, n := Gen(TreeOf(node.child)), NodeCode(node.Self(), TreeOf(node.child));
      EncodeConcat(c, n);
      if node.child != null {
        Compile(node.child);
      } else {
        WrittenNothing(text[..], pc);
        EncodeLengths(NoId, BinOp.Add);
        NoTree();
      }
      CompileNode(node);
      WrittenTwice(t, p, EncodeAll(c), EncodeAll(n));
    }

    lemma NoTree()
      ensures Gen(Nil) == []
    {
    }

    // current_node->sibling = NULL: the statement becomes a tree of its own.
    method Detach(node: FinshNode) returns (sibling: FinshNode?)
      requires node.Valid()
      modifies node`sibling, node`repr
      ensures node.Valid() && node.repr <= old(node.repr) && sibling == old(node.sibling)
      ensures node.Tree() == Node(old(node.Self()), old(TreeOf(node.child)), Nil)
      ensures sibling != null ==> sibling.Valid() && sibling.repr < old(node.repr) && sibling.repr == old(node.sibling.repr)
      ensures sibling != null ==> node !in sibling.repr && node.repr !! sibling.repr
      ensures TreeOf(sibling) == old(TreeOf(node.sibling))
    {
      sibling := node.sibling;
      node.sibling := null;
      node.repr := {node} + if node.child == null then {} else node.child.repr;
    }

    // memset(&text_segment[0], 0, sizeof(text_segment))
    method Clear()
      modifies this, text
      ensures pc == 0 && text[..] == Zeros(text.Length)
    {
      var k := 0;
      while k < text.Length
        invariant 0 <= k <= text.Length && forall j | 0 <= j < k :: text[j] == NOOP
      {
        text[k] := NOOP;
        k := k + 1;
      }
      pc := 0;
    }

    // finsh_compiler_run
    method Run(root: FinshNode?)
      requires root != null ==> root.Valid()
      requires text.Length == FINSH_TEXT_MAX
      requires |EncodeAll(GenLine(Check(TreeOf(root), false)))| <= text.Length
      modifies this, text, if root == null then {} else root.repr
      ensures var code := old(EncodeAll(GenLine(Check(TreeOf(root), false))));
              |code| <= text.Length && text[..] == Written(Zeros(text.Length), 0, code)
    {
      hide Written, Encode, EncodeAll, Check, Gen;
      ghost var all := if root == null then {} else root.repr;
      TypeCheck(root, false);
      Clear();
      ghost var line, zeros := GenLine(TreeOf(root)), text[..];
      ghost var done: seq<Instr> := [];
      EncodeLengths(NoId, BinOp.Add);
      WrittenNothing(zeros, 0);
      var sibling := root;
      while sibling != null
        invariant sibling != null ==> sibling.Valid() && sibling.repr <= all
        invariant done + GenLine(TreeOf(sibling)) == line
        invariant |EncodeAll(line)| <= text.Length == |zeros| && pc == |EncodeAll(done)| <= text.Length
        invariant text[..] == Written(zeros, 0, EncodeAll(done))
        decreases if sibling == null then {} else sibling.repr
      {
        sibling, done := Statement(sibling, zeros, done, line);
      }
      assert done + [] == done;
    }

    // One round of its loop: compile a statement, and pop its value unless it is the last.
    method Statement(current: FinshNode, ghost zeros: seq<Byte>, ghost done: seq<Instr>, ghost line: seq<Instr>)
      returns (sibling: FinshNode?, ghost done': seq<Instr>)
      requires current.Valid()
      requires done + GenLine(TreeOf(current)) == line
      requires |EncodeAll(line)| <= text.Length == |zeros| && pc == |EncodeAll(done)| <= text.Length
      requires text[..] == Written(zeros, 0, EncodeAll(done))
      modifies this, text, current`sibling, current`repr
      ensures sibling == old(current.sibling) && (sibling != null ==> sibling.Valid() && sibling.repr < old(current.repr))
      ensures done' + GenLine(TreeOf(sibling)) == line
      ensures pc == |EncodeAll(done')| <= text.Length && text[..] == Written(zeros, 0, EncodeAll(done'))
    {
      hide Written, Encode, EncodeAll, Gen;
      sibling := Detach(current);
      ghost var one := Gen(TreeOf(current));
      ghost var pop := if sibling == null then [] else [Instr.Pop];
      done' := done + one + pop;
      assert done' + GenLine(TreeOf(sibling)) == line;
      EncodeConcat(done', GenLine(TreeOf(sibling)));
      EncodeConcat(done + one, pop);
      EncodeConcat(done, one);
      WrittenTwice(zeros, 0, EncodeAll(done), EncodeAll(one));
      WrittenTwice(zeros, 0, EncodeAll(done + one), EncodeAll(pop));
      Compile(current);
      EncodeOne(Instr.Pop);
      EmitIf(sibling != null, Instr.Pop);
    }
  }

  function Zeros(n: nat): seq<Byte>
  {
    seq(n, _ => NOOP)
  }

  // A command line in the double-word fragment whose code fits the segment: type check, compile and run
  // leave the memory, and at the bottom of the stack the value, that the line means.
  method ExecuteLine(sys: System, root: FinshNode, ghost es: Exprs, mem: Memory) returns (v: Word, mem': Memory)
    requires root.Valid() && root.Tree() == LowerAll(es) && es.More? && SoundAll(es) && ScopedAll(es)
    requires |EncodeAll(CodeLine(es))| <= FINSH_TEXT_MAX
    requires EvalLine(sys, es, mem).Some?
    modifies root.repr
    ensures EvalLine(sys, es, mem) == Some((v, mem'))
  {
    hide EncodeAll, CodeLine, EvalLine, RunText, Check, GenLine, LowerAll;
    var compiler := new Compiler();
    TreeLine(es);
    compiler.Run(root);
    ghost var code := EncodeAll(CodeLine(es));
    assert compiler.text[..] == code + Zeros(FINSH_TEXT_MAX)[|code|..] by { WrittenAtStart(FINSH_TEXT_MAX, code); }
    TextMeaning(sys, compiler.text[..], es, mem);
    var vm := new Vm(compiler.text, mem);
    vm.Run(sys);
    v, mem' := vm.stack[0], vm.mem;
    assert vm.stack[..vm.sp] == [EvalLine(sys, es, mem).value.0];
  }

  lemma {:induction false} WrittenAtStart(n: nat, code: seq<Byte>)
    requires |code| <= n
    ensures Written(Zeros(n), 0, code) == code + Zeros(n)[|code|..]
    ensures code <= code + Zeros(n)[|code|..]
  {
  }

  lemma {:induction false} EncodeOne(i: Instr)
    ensures EncodeAll([i]) == Encode(i)
  {
    assert [i][1..] == [] && EncodeAll([]) == [];
  }

  lemma {:induction false} EncodeLengths(id: Id, op: BinOp)
    ensures EncodeAll([]) == []
    ensures |EncodeAll([StoreTop, FetchTop])| == 2
    ensures |EncodeAll(PreCode(id, op))| == 13 && |EncodeAll(PostCode(id, op))| == 18
    ensures forall i :: |Encode(i)| == if i.Push? || i.Fetch? then 5 else if i.Syscall? then 2 else 1
  {
    EncodeOne(StoreTop);
    EncodeOne(FetchTop);
    EncodeConcat([StoreTop], [FetchTop]);
    assert [StoreTop, FetchTop] == [StoreTop] + [FetchTop];
    PreLength(id, op);
    PostLength(id, op);
  }

  lemma {:induction false} EncodeFront(i: Instr, rest: seq<Instr>)
    ensures |EncodeAll([i] + rest)| == |Encode(i)| + |EncodeAll(rest)|
  {
    EncodeOne(i);
    EncodeConcat([i], rest);
  }

  lemma {:induction false} PreLength(id: Id, op: BinOp)
    ensures |EncodeAll(PreCode(id, op))| == 13
  {
    hide EncodeAll;
    var a := StepAddress(id);
    EncodeOne(FetchTop);
    EncodeFront(StoreTop, [FetchTop]);
    EncodeFront(Binary(op), [StoreTop] + [FetchTop]);
    EncodeFront(Push(1), [Binary(op)] + ([StoreTop] + [FetchTop]));
    EncodeFront(FinshTree.Fetch(a), [Push(1)] + ([Binary(op)] + ([StoreTop] + [FetchTop])));
    assert PreCode(id, op) == [FinshTree.Fetch(a)] + ([Push(1)] + ([Binary(op)] + ([StoreTop] + [FetchTop])));
  }

  lemma {:induction false} PostLength(id: Id, op: BinOp)
    ensures |EncodeAll(PostCode(id, op))| == 18
  {
    hide EncodeAll;
    var a := StepAddress(id);
    EncodeOne(Pop);
    EncodeFront(StoreTop, [Pop]);
    EncodeFront(Binary(op), [StoreTop] + [Pop]);
    EncodeFront(Push(1), [Binary(op)] + ([StoreTop] + [Pop]));
    EncodeFront(FinshTree.Fetch(a), [Push(1)] + ([Binary(op)] + ([StoreTop] + [Pop])));
    EncodeFront(Push(a), [FinshTree.Fetch(a)] + ([Push(1)] + ([Binary(op)] + ([StoreTop] + [Pop]))));
    assert PostCode(id, op) == [Push(a)] + ([FinshTree.Fetch(a)] + ([Push(1)] + ([Binary(op)] + ([StoreTop] + [Pop]))));
  }
}
