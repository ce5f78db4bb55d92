/** The language of the finsh shell: what a C expression over 32-bit variables means, evaluated left
    to right.  It knows nothing of trees, byte code or stacks. */
module FinshLang {
  import opened BinaryDigits

  datatype Option<+T> = None | Some(value: T)

  const TWO32 := 0x1_0000_0000

  newtype Byte = b: int | 0 <= b < 0x100
  type Word = w: int | 0 <= w < 0x1_0000_0000

  // ---- Data memory: byte-addressed, little-endian; an unmapped address faults ----

  type Memory = map<Word, Byte>

  // Byte k of a word, as FINSH_SET32 and a 32-bit store lay it out.
  function Byte0(v: Word): Byte { (v % 0x100) as Byte }

  function Byte1(v: Word): Byte { (v / 0x100 % 0x100) as Byte }

  function Byte2(v: Word): Byte { (v / 0x1_0000 % 0x100) as Byte }

  function Byte3(v: Word): Byte { (v / 0x100_0000) as Byte }

  function Join(b0: Byte, b1: Byte, b2: Byte, b3: Byte): Word
  {
    b0 as int + b1 as int * 0x100 + b2 as int * 0x1_0000 + b3 as int * 0x100_0000
  }

  lemma JoinBytes(v: Word)
    ensures Join(Byte0(v), Byte1(v), Byte2(v), Byte3(v)) == v
  {
    assert v / 0x1_0000 == v / 0x100 / 0x100;
    assert v / 0x100_0000 == v / 0x100 / 0x100 / 0x100;
  }

  function Next(a: Word, k: nat): Word
  {
    (a + k) % TWO32
  }

  predicate Mapped(m: Memory, a: Word)
  {
    a in m && Next(a, 1) in m && Next(a, 2) in m && Next(a, 3) in m
  }

  function Load(m: Memory, a: Word): Option<Word>
  {
    if Mapped(m, a) then Some(Join(m[a], m[Next(a, 1)], m[Next(a, 2)], m[Next(a, 3)])) else None
  }

  function Store(m: Memory, a: Word, v: Word): Option<Memory>
  {
    if Mapped(m, a) then
      Some(m[a := Byte0(v)][Next(a, 1) := Byte1(v)][Next(a, 2) := Byte2(v)][Next(a, 3) := Byte3(v)])
    else None
  }

  lemma {:induction false} LoadStored(m: Memory, a: Word, v: Word)
    ensures Store(m, a, v).Some? <==> Load(m, a).Some?
    ensures Store(m, a, v).Some? ==> Load(Store(m, a, v).value, a) == Some(v)
  {
    JoinBytes(v);
  }

  // ---- 32-bit arithmetic ----

  datatype BinOp = Add | Sub | Mul | Div | Mod | And | Or | Xor | Shl | Shr

  function Signed(a: Word): int
  {
    if a >= 0x8000_0000 then a - TWO32 else a
  }

  function Wrap(n: int): Word
  {
    n % TWO32
  }

  // C's signed division truncates towards zero; dividing by zero and LONG_MIN / -1 have no meaning.
  function Truncated(x: int, y: int): int
    requires y != 0
  {
    var q := (if x < 0 then -x else x) / (if y < 0 then -y else y);
    if (x < 0) == (y < 0) then q else -q
  }

  function Quotient(a: Word, b: Word): int
    requires b != 0
  {
    Truncated(Signed(a), Signed(b))
  }

  function Remainder(a: Word, b: Word): int
    requires b != 0
  {
    Signed(a) - Quotient(a, b) * Signed(b)
  }

  predicate Divides(a: Word, b: Word)
  {
    b != 0 && !(a == 0x8000_0000 && b == 0xffff_ffff)
  }

  // Operators that work digit by digit.
  predicate Digit(op: BinOp, x: bool, y: bool)
  {
    match op
    case And => x && y
    case Or => x || y
    case _ => x != y
  }

  function Digits(op: BinOp, a: nat, b: nat, n: nat): (r: nat)
    ensures r < Pow2(n)
  {
    if n == 0 then 0
    else (if Digit(op, a % 2 == 1, b % 2 == 1) then 1 else 0) + 2 * Digits(op, a / 2, b / 2, n - 1)
  }

  function Bitwise(op: BinOp, a: Word, b: Word): Word
  {
    PowOf32();
    Digits(op, a, b, 32)
  }

  function Complement(a: Word): Word
  {
    TWO32 - 1 - a
  }

  // The right shift of a long is arithmetic: it rounds towards minus infinity.
  function ShiftRight(a: Word, n: nat): Word
  {
    Wrap(Signed(a) / Pow2(n))
  }

  // Division by zero, LONG_MIN / -1 and shift counts outside 0..31 have no meaning.
  function Operate(op: BinOp, a: Word, b: Word): Option<Word>
  {
    match op
    case Add => Some(Wrap(a + b))
    case Sub => Some(Wrap(a - b))
    case Mul => Some(Wrap(a * b))
    case Div => if Divides(a, b) then Some(Wrap(Quotient(a, b))) else None
    case Mod => if Divides(a, b) then Some(Wrap(Remainder(a, b))) else None
    case And => Some(Bitwise(op, a, b))
    case Or => Some(Bitwise(op, a, b))
    case Xor => Some(Bitwise(op, a, b))
    case Shl => if b < 32 then Some(Wrap(a * Pow2(b))) else None
    case Shr => if b < 32 then Some(ShiftRight(a, b)) else None
  }

  // ---- Expressions ----

  // The finsh_type values whose data type is a double word.
  datatype VarType = Int | UInt | IntPtr | Long | ULong | LongPtr | CharPtr | ShortPtr | VoidPtr

  // An identifier node refers to a shell variable (the address of its value), to a system variable
  // (its target, and the address its table entry would have if it were a shell variable), or to a function.
  datatype Id = NoId | Var(ty: VarType, value: Word) | SysVar(ty: VarType, target: Word, shadow: Word) | Func(entry: Word)

  predicate IsVariable(id: Id)
  {
    id.Var? || id.SysVar?
  }

  predicate IsVoidPointer(id: Id)
  {
    IsVariable(id) && id.ty.VoidPtr?
  }

  function Address(id: Id): Word
    requires IsVariable(id)
  {
    if id.Var? then id.value else id.target
  }

  datatype LitKind = IntLit | LongLit | StringLit | NullLit

  datatype Expr =
    | Lit(kind: LitKind, v: Word)
    | Read(id: Id)
    | Bin(op: BinOp, a: Expr, b: Expr)
    | Not(a: Expr)
    | Assign(lv: LValue, e: Expr)
    | PreStep(lv: LValue, up: bool)
    | PostStep(id: Id, up: bool)
    | Deref(p: Expr)
    | AddrOf(lv: LValue)
    | Call(entry: Word, args: Exprs)

  datatype LValue = LVar(id: Id) | LDeref(p: Expr)

  datatype Exprs = Done | More(e: Expr, rest: Exprs)

  // System calls: address, arguments and memory to result and memory; None if the call never returns.
  type System = (Word, seq<Word>, Memory) -> Option<(Word, Memory)>

  const MAX_ARGS := 16

  // Every identifier names a variable.
  predicate Scoped(e: Expr)
  {
    match e
    case Lit(_, _) => true
    case Read(id) => IsVariable(id)
    case Bin(_, a, b) => Scoped(a) && Scoped(b)
    case Not(a) => Scoped(a)
    case Assign(lv, e') => ScopedPlace(lv) && Scoped(e')
    case PreStep(lv, _) => ScopedPlace(lv)
    case PostStep(id, _) => IsVariable(id)
    case Deref(p) => Scoped(p)
    case AddrOf(lv) => ScopedPlace(lv)
    case Call(_, args) => ScopedAll(args)
  }

  predicate ScopedPlace(lv: LValue)
  {
    match lv
    case LVar(id) => IsVariable(id)
    case LDeref(p) => Scoped(p)
  }

  predicate ScopedAll(es: Exprs)
  {
    match es
    case Done => true
    case More(e, rest) => Scoped(e) && ScopedAll(rest)
  }

  function Delta(up: bool): BinOp
  {
    if up then Add else Sub
  }

  function Length(es: Exprs): nat
  {
    match es
    case Done => 0
    case More(_, rest) => 1 + Length(rest)
  }

  // The value of an expression and the memory it leaves behind.
  function Eval(sys: System, e: Expr, m: Memory): Option<(Word, Memory)>
    requires Scoped(e)
    decreases e
  {
    match e
    case Lit(_, v) => Some((v, m))
    case Read(id) => (match Load(m, Address(id)) case None => None case Some(v) => Some((v, m)))
    case Bin(op, a, b) =>
      (match Eval(sys, a, m)
       case None => None
       case Some((x, m1)) =>
         match Eval(sys, b, m1)
         case None => None
         case Some((y, m2)) => match Operate(op, x, y) case None => None case Some(v) => Some((v, m2)))
    case Not(a) => (match Eval(sys, a, m) case None => None case Some((x, m1)) => Some((Complement(x), m1)))
    case Assign(lv, e') =>
      (match Place(sys, lv, m)
       case None => None
       case Some((addr, m1)) =>
         match Eval(sys, e', m1)
         case None => None
         case Some((v, m2)) => match Store(m2, addr, v) case None => None case Some(m3) => Some((v, m3)))
    case PreStep(lv, up) =>
      (match Place(sys, lv, m)
       case None => None
       case Some((addr, m1)) =>
         match Load(m1, addr)
         case None => None
         case Some(v) => Some((Operate(Delta(up), v, 1).value, Store(m1, addr, Operate(Delta(up), v, 1).value).value)))
    case PostStep(id, up) =>
      (match Load(m, Address(id))
       case None => None
       case Some(v) => Some((v, Store(m, Address(id), Operate(Delta(up), v, 1).value).value)))
    case Deref(p) =>
      (match Eval(sys, p, m)
       case None => None
       case Some((addr, m1)) => match Load(m1, addr) case None => None case Some(v) => Some((v, m1)))
    case AddrOf(lv) => Place(sys, lv, m)
    case Call(entry, args) =>
      match EvalAll(sys, args, m)
      case None => None
      case Some((vs, m1)) => if |vs| > MAX_ARGS then None else sys(entry, vs, m1)
  }

  // The address an l-value denotes.
  function Place(sys: System, lv: LValue, m: Memory): Option<(Word, Memory)>
    requires ScopedPlace(lv)
    decreases lv
  {
    match lv
    case LVar(id) => Some((Address(id), m))
    case LDeref(p) => Eval(sys, p, m)
  }

  function EvalAll(sys: System, es: Exprs, m: Memory): (r: Option<(seq<Word>, Memory)>)
    requires ScopedAll(es)
    ensures r.Some? ==> |r.value.0| == Length(es)
    decreases es
  {
    match es
    case Done => Some(([], m))
    case More(e, rest) =>
      match Eval(sys, e, m)
      case None => None
      case Some((v, m1)) =>
        match EvalAll(sys, rest, m1)
        case None => None
        case Some((vs, m2)) => Some(([v] + vs, m2))
  }

  // A command line of statements: all are evaluated in order, the last one's value is the result.
  function EvalLine(sys: System, es: Exprs, m: Memory): Option<(Word, Memory)>
    requires ScopedAll(es) && es.More?
    decreases es
  {
    match Eval(sys, es.e, m)
    case None => None
    case Some((v, m1)) => if es.rest.Done? then Some((v, m1)) else EvalLine(sys, es.rest, m1)
  }
}
