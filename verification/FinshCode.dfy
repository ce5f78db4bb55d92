/** The byte code: how finsh_compiler.c lays instructions out in the text segment and how
    finsh_vm_run fetches them again (opcodes of MDK/components/finsh/finsh_ops.h). */
module FinshCode {
  import opened FinshLang
  import opened FinshTree
  import opened FinshCorrect

  const NOOP: Byte := 0x00
  const BITWISE_DWORD: Byte := 0x1B
  const LD_DWORD: Byte := 0x24
  const LD_VALUE_DWORD: Byte := 0x27
  const ST_DWORD: Byte := 0x2A
  const POP: Byte := 0x2B
  const SYSCALL: Byte := 0x2C
  const LD_VALUE_DWORD_STACK: Byte := 0x2F

  function OpByte(op: BinOp): Byte
  {
    match op
    case Add => 0x03
    case Sub => 0x06
    case Div => 0x09
    case Mod => 0x0C
    case Mul => 0x0F
    case And => 0x12
    case Or => 0x15
    case Xor => 0x18
    case Shl => 0x1E
    case Shr => 0x21
  }

  // FINSH_SET32
  function Little(v: Word): seq<Byte>
  {
    [Byte0(v), Byte1(v), Byte2(v), Byte3(v)]
  }

  function Encode(i: Instr): (bytes: seq<Byte>)
    ensures |bytes| == if i.Push? || i.Fetch? then 5 else if i.Syscall? then 2 else 1
  {
    match i
    case Noop => [NOOP]
    case Binary(op) => [OpByte(op)]
    case Flip => [BITWISE_DWORD]
    case Push(v) => [LD_DWORD] + Little(v)
    case Fetch(a) => [LD_VALUE_DWORD] + Little(a)
    case StoreTop => [ST_DWORD]
    case Pop => [POP]
    case Syscall(n) => [SYSCALL, n]
    case FetchTop => [LD_VALUE_DWORD_STACK]
  }

  // An operand lies behind its opcode with its lowest byte first.
  lemma {:induction false} OperandLowFirst(v: Word)
    ensures var t := Encode(Push(v)); v == t[1] as int + 0x100 * t[2] as int + 0x1_0000 * t[3] as int + 0x100_0000 * t[4] as int
    ensures Encode(Fetch(v))[1..] == Encode(Push(v))[1..]
  {
    hide Byte0, Byte1, Byte2, Byte3;
    JoinBytes(v);
  }

  function EncodeAll(code: seq<Instr>): seq<Byte>
    decreases |code|
  {
    if code == [] then [] else Encode(code[0]) + EncodeAll(code[1..])
  }

  lemma {:induction false} EncodeConcat(a: seq<Instr>, b: seq<Instr>)
    ensures EncodeAll(a + b) == EncodeAll(a) + EncodeAll(b)
    decreases |a|
  {
    if a == [] {
      assert a + b == b;
    } else {
      assert (a + b)[1..] == a[1..] + b;
      EncodeConcat(a[1..], b);
    }
  }

  function BinOpOf(b: Byte): Option<BinOp>
  {
    if b == 0x03 then Some(Add) else if b == 0x06 then Some(Sub) else if b == 0x09 then Some(Div)
    else if b == 0x0C then Some(Mod) else if b == 0x0F then Some(Mul) else if b == 0x12 then Some(And)
    else if b == 0x15 then Some(Or) else if b == 0x18 then Some(Xor) else if b == 0x1E then Some(Shl)
    else if b == 0x21 then Some(Shr) else None
  }

  // FINSH_GET32
  function Get32(text: seq<Byte>, pc: nat): Word
    requires pc + 4 <= |text|
  {
    Join(text[pc], text[pc + 1], text[pc + 2], text[pc + 3])
  }

  // The instruction at pc; None for an opcode outside the double-word fragment, or one whose operand
  // runs past the segment.
  function Decode(text: seq<Byte>, pc: nat): (r: Option<Instr>)
    requires pc < |text|
    ensures r.Some? ==> pc + |Encode(r.value)| <= |text|
  {
    var b := text[pc];
    if b == NOOP then Some(Noop)
    else if BinOpOf(b).Some? then Some(Binary(BinOpOf(b).value))
    else if b == BITWISE_DWORD then Some(Flip)
    else if b == LD_DWORD then (if pc + 5 <= |text| then Some(Push(Get32(text, pc + 1))) else None)
    else if b == LD_VALUE_DWORD then (if pc + 5 <= |text| then Some(Fetch(Get32(text, pc + 1))) else None)
    else if b == ST_DWORD then Some(StoreTop)
    else if b == POP then Some(Pop)
    else if b == SYSCALL then (if pc + 2 <= |text| then Some(Syscall(text[pc + 1])) else None)
    else if b == LD_VALUE_DWORD_STACK then Some(FetchTop)
    else None
  }

  // What was encoded is what is fetched, wherever it lies.
  lemma {:induction false} DecodeEncode(pre: seq<Byte>, i: Instr, post: seq<Byte>)
    ensures Decode(pre + Encode(i) + post, |pre|) == Some(i)
  {
    var text := pre + Encode(i) + post;
    assert forall k | 0 <= k < |Encode(i)| :: text[|pre| + k] == Encode(i)[k];
    match i
    case Push(v) =>
      JoinBytes(v);
      assert text[|pre| + 1] == Byte0(v) && text[|pre| + 2] == Byte1(v) && text[|pre| + 3] == Byte2(v) && text[|pre| + 4] == Byte3(v);
    case Fetch(v) =>
      JoinBytes(v);
      assert text[|pre| + 1] == Byte0(v) && text[|pre| + 2] == Byte1(v) && text[|pre| + 3] == Byte2(v) && text[|pre| + 4] == Byte3(v);
    case Syscall(n) =>
      assert text[|pre| + 1] == n;
    case _ =>
  }

  // finsh_vm_run: fetch and execute until pc leaves the text segment.
  function RunText(sys: System, text: seq<Byte>, pc: nat, st: State): Option<State>
    requires pc <= |text|
    decreases |text| - pc
  {
    if pc == |text| then Some(st)
    else
      match Decode(text, pc)
      case None => None
      case Some(i) =>
        match Exec(sys, i, st)
        case None => None
        case Some(st') => RunText(sys, text, pc + |Encode(i)|, st')
  }

  lemma {:induction false} RunTextStep(sys: System, text: seq<Byte>, pc: nat, st: State)
    requires pc < |text| && RunText(sys, text, pc, st).Some?
    ensures Decode(text, pc).Some? && Exec(sys, Decode(text, pc).value, st).Some?
    ensures RunText(sys, text, pc, st) ==
            RunText(sys, text, pc + |Encode(Decode(text, pc).value)|, Exec(sys, Decode(text, pc).value, st).value)
  {
  }

  lemma {:induction false} RunTextEnd(sys: System, text: seq<Byte>, st: State)
    ensures RunText(sys, text, |text|, st) == Some(st)
  {
  }

  // Fetching encoded instructions runs them, then goes on behind them.
  lemma {:induction false} RunEncoded(sys: System, pre: seq<Byte>, code: seq<Instr>, post: seq<Byte>, st: State)
    ensures RunText(sys, pre + EncodeAll(code) + post, |pre|, st) ==
            match ExecAll(sys, code, st)
            case None => None
            case Some(st') => RunText(sys, pre + EncodeAll(code) + post, |pre + EncodeAll(code)|, st')
    decreases |code|
  {
    hide Decode, Exec, Encode;
    var text := pre + EncodeAll(code) + post;
    if code != [] {
      var i, rest := code[0], EncodeAll(code[1..]) + post;
      assert text == pre + Encode(i) + rest;
      DecodeEncode(pre, i, rest);
      if Exec(sys, i, st).Some? {
        assert text == (pre + Encode(i)) + EncodeAll(code[1..]) + post;
        RunEncoded(sys, pre + Encode(i), code[1..], post, Exec(sys, i, st).value);
        assert pre + Encode(i) + EncodeAll(code[1..]) == pre + EncodeAll(code);
      }
    }
  }

  // The cleared rest of the segment is a sequence of no-ops.
  lemma {:induction false} RunZeros(sys: System, text: seq<Byte>, pc: nat, st: State)
    requires pc <= |text| && forall k | pc <= k < |text| :: text[k] == NOOP
    ensures RunText(sys, text, pc, st) == Some(st)
    decreases |text| - pc
  {
    if pc < |text| {
      RunZeros(sys, text, pc + 1, st);
    }
  }

  // A text segment that holds the code of a command line, and zeros, evaluates that line.
  lemma {:induction false} TextMeaning(sys: System, text: seq<Byte>, es: Exprs, m: Memory)
    requires SoundAll(es) && es.More?
    requires var bytes := EncodeAll(CodeLine(es));
             bytes <= text && forall k | |bytes| <= k < |text| :: text[k] == NOOP
    ensures ScopedAll(es)
    ensures RunText(sys, text, 0, State([], m)) ==
            match EvalLine(sys, es, m) case None => None case Some((v, m')) => Some(State([v], m'))
  {
    SoundAllAreScoped(es);
    LineMeaning(sys, es, State([], m));
    var bytes := EncodeAll(CodeLine(es));
    var post := text[|bytes|..];
    assert text == [] + bytes + post && [] + bytes == bytes;
    RunEncoded(sys, [], CodeLine(es), post, State([], m));
    match EvalLine(sys, es, m)
    case None =>
    case Some((v, m')) =>
      assert [] + [v] == [v];
      RunZeros(sys, text, |bytes|, State([v], m'));
  }
}
