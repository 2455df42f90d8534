/**
 * The older encoder kept in src/assembler/mod.rs. Its tokens are only
 * opcodes, registers and integers, so a token always has bytes; instead
 * the opcode field is a bare token, and one that is not an opcode makes
 * the assembler exit.
 */
module LegacyAssembler {
  import opened Base
  import opened Results
  import Tokens
  import Opcodes
  import Instructions
  import Programs

  datatype Token =
    | Opcode(op: Opcodes.Opcode)
    | Register(index: Byte)
    | IntegerOperand(value: Int32)
  {
    /** `Token::to_bytes` of mod.rs: defined for every token. */
    function ToBytes(): (r: seq<Byte>)
      ensures |r| == if IntegerOperand? then 2 else 1
      ensures Opcode? ==> r == [Opcodes.Code(op)]
      ensures Register? ==> r == [index]
      ensures IntegerOperand? ==> BigEndian16(r[0], r[1]) == value % 0x1_0000
    {
      match this
      case Opcode(op) => [Opcodes.Code(op)]
      case Register(index) => [index]
      case IntegerOperand(value) =>
        var low16 := value % 0x1_0000;
        [low16 / 256, low16 % 256]
    }

    /** The same token in the newer token type. */
    function Lift(): Tokens.Token {
      match this
      case Opcode(op) => Tokens.Opcode(op)
      case Register(index) => Tokens.Register(index)
      case IntegerOperand(value) => Tokens.IntegerOperand(value)
    }
  }

  datatype AssemblyInstruction = AssemblyInstruction(
    opcode: Token,
    operand1: Option<Token>,
    operand2: Option<Token>,
    operand3: Option<Token>)
  {
    function Operands(): seq<Option<Token>> {
      [operand1, operand2, operand3]
    }

    /** The same instruction in the newer record, with no label and no directive. */
    function Lift(): Instructions.AssemblyInstruction {
      Instructions.AssemblyInstruction(Some(opcode.Lift()), None, None,
        LiftOption(operand1), LiftOption(operand2), LiftOption(operand3))
    }

    /** `AssemblyInstruction::to_bytes` of mod.rs, a loop over the operands and a padding loop. */
    method ToBytes() returns (r: Result<seq<Byte>, Tokens.EncodeError>)
      ensures r == Encoding(this)
    {
      if !opcode.Opcode? {
        return Err(Tokens.NotAnOpcode(opcode.Lift()));
      }
      var result := opcode.ToBytes();
      ghost var head := result;
      var operands := Operands();
      for i := 0 to |operands|
        invariant result == head + OperandBytes(operands[..i])
      {
        assert operands[..i + 1][..i] == operands[..i];
        match operands[i] {
          case None =>
          case Some(t) =>
            result := result + t.ToBytes();
        }
      }
      assert operands[..|operands|] == operands;
      result := Instructions.Pad(result);
      return Ok(result);
    }
  }

  function LiftOption(t: Option<Token>): Option<Tokens.Token> {
    match t
    case None => None
    case Some(t) => Some(t.Lift())
  }

  /** The bytes of the present tokens of `ts`, in order; an absent token adds nothing. */
  function OperandBytes(ts: seq<Option<Token>>): seq<Byte> {
    if ts == [] then []
    else
      OperandBytes(ts[..|ts| - 1]) + match ts[|ts| - 1]
        case None => []
        case Some(t) => t.ToBytes()
  }

  /** What `AssemblyInstruction::to_bytes` of mod.rs produces, or the token that stands where the opcode should. */
  function Encoding(inst: AssemblyInstruction): Result<seq<Byte>, Tokens.EncodeError> {
    if inst.opcode.Opcode? then
      Ok(Instructions.Padded(inst.opcode.ToBytes() + OperandBytes(inst.Operands())))
    else
      Err(Tokens.NotAnOpcode(inst.opcode.Lift()))
  }

  /** Each older token encodes as its newer counterpart does. */
  lemma TokenAgrees(t: Token)
    ensures t.Lift().ToBytes() == Ok(t.ToBytes())
  {
  }

  /** The older operand bytes are the newer ones, which always exist here. */
  lemma {:induction false} OperandBytesAgree(ts: seq<Option<Token>>)
    ensures Instructions.OperandBytes(seq(|ts|, i requires 0 <= i < |ts| => LiftOption(ts[i]))) == Ok(OperandBytes(ts))
  {
    var lifted := seq(|ts|, i requires 0 <= i < |ts| => LiftOption(ts[i]));
    if ts != [] {
      var front := ts[..|ts| - 1];
      OperandBytesAgree(front);
      assert lifted[..|lifted| - 1] == seq(|front|, i requires 0 <= i < |front| => LiftOption(front[i]));
      var last := ts[|ts| - 1];
      assert lifted[|lifted| - 1] == LiftOption(last);
      var rest := Instructions.OperandBytes(lifted[..|lifted| - 1]);
      assert rest == Ok(OperandBytes(front));
      if last.Some? {
        TokenAgrees(last.value);
        assert Instructions.OperandBytes(lifted) == Ok(rest.value + last.value.ToBytes());
      } else {
        assert Instructions.OperandBytes(lifted) == rest;
        assert OperandBytes(ts) == OperandBytes(front) + [] == OperandBytes(front);
      }
    }
  }

  /**
   * With an opcode in the opcode field the older encoder gives the newer
   * one's bytes; with anything else it stops, where the newer one would not.
   */
  lemma EncodingAgrees(inst: AssemblyInstruction)
    ensures inst.opcode.Opcode? <==> Encoding(inst).Ok?
    ensures inst.opcode.Opcode? ==> Encoding(inst) == Instructions.Encoding(inst.Lift())
    ensures !inst.opcode.Opcode? ==> Encoding(inst) == Err(Tokens.NotAnOpcode(inst.opcode.Lift()))
  {
    var ts := inst.Operands();
    OperandBytesAgree(ts);
    assert inst.Lift().Operands() == seq(|ts|, i requires 0 <= i < |ts| => LiftOption(ts[i]));
  }

  /**
   * The opcode's byte comes first, then the operand bytes in order, then
   * 0xFF up to four bytes.
   */
  lemma EncodingLayout(inst: AssemblyInstruction)
    requires inst.opcode.Opcode?
    ensures var tail := OperandBytes(inst.Operands());
            var r := Encoding(inst).value;
            && |r| == Instructions.Max(Instructions.WIDTH, 1 + |tail|)
            && r[0] == Opcodes.Code(inst.opcode.op)
            && r[1..1 + |tail|] == tail
            && forall i :: 1 + |tail| <= i < |r| ==> r[i] == Instructions.PADDING
  {
    var tail := OperandBytes(inst.Operands());
    var r := Encoding(inst).value;
    assert r[..1 + |tail|] == [Opcodes.Code(inst.opcode.op)] + tail;
    assert r[1..1 + |tail|] == r[..1 + |tail|][1..];
  }

  datatype Program = Program(instructions: seq<AssemblyInstruction>) {
    /** `Program::to_bytes` of mod.rs: appends each instruction's bytes in a loop. */
    method ToBytes() returns (r: Result<seq<Byte>, Tokens.EncodeError>)
      ensures r == ProgramEncoding(instructions)
    {
      var result: seq<Byte> := [];
      ghost var parts := Parts(instructions);
      for i := 0 to |instructions|
        invariant Programs.Concatenation(parts[..i]) == Ok(result)
      {
        Programs.ConcatenationStep(parts, i);
        var bytes := instructions[i].ToBytes();
        if bytes.Err? {
          Programs.ConcatenationPrefixError(parts, i + 1);
          return Err(bytes.error);
        }
        result := result + bytes.value;
      }
      assert parts[..|instructions|] == parts;
      return Ok(result);
    }
  }

  function Parts(insts: seq<AssemblyInstruction>): (ps: seq<Result<seq<Byte>, Tokens.EncodeError>>)
    ensures |ps| == |insts| && forall i :: 0 <= i < |insts| ==> ps[i] == Encoding(insts[i])
  {
    seq(|insts|, i requires 0 <= i < |insts| => Encoding(insts[i]))
  }

  /** The bytes `Program::to_bytes` of mod.rs produces, or the first instruction's error. */
  function ProgramEncoding(insts: seq<AssemblyInstruction>): Result<seq<Byte>, Tokens.EncodeError> {
    Programs.Concatenation(Parts(insts))
  }

  /**
   * A program whose every opcode field holds an opcode encodes as its newer
   * counterpart; otherwise encoding stops.
   */
  lemma ProgramAgrees(insts: seq<AssemblyInstruction>)
    ensures ProgramEncoding(insts).Ok? <==> forall i :: 0 <= i < |insts| ==> insts[i].opcode.Opcode?
    ensures ProgramEncoding(insts).Ok? ==>
      ProgramEncoding(insts) == Programs.Encoding(seq(|insts|, i requires 0 <= i < |insts| => insts[i].Lift()))
  {
    var lifted := seq(|insts|, i requires 0 <= i < |insts| => insts[i].Lift());
    forall i | 0 <= i < |insts|
      ensures Parts(insts)[i].Ok? <==> insts[i].opcode.Opcode?
    {
      EncodingAgrees(insts[i]);
    }
    Programs.ConcatenationOk(Parts(insts));
    if ProgramEncoding(insts).Ok? {
      forall i | 0 <= i < |insts|
        ensures Parts(insts)[i] == Programs.Parts(lifted)[i]
      {
        EncodingAgrees(insts[i]);
      }
      assert Parts(insts) == Programs.Parts(lifted);
    }
  }

  /** The examples of the source's tests for tokens and instructions. */
  lemma Examples()
    ensures Opcode(Opcodes.LOAD).ToBytes() == [1]
    ensures Opcode(Opcodes.HLT).ToBytes() == [0]
    ensures Opcode(Opcodes.JMP).ToBytes() == [6]
    ensures Encoding(AssemblyInstruction(Opcode(Opcodes.LOAD), Some(Register(10)), Some(IntegerOperand(99)), None))
      == Ok([1, 10, 0, 99])
    ensures Encoding(AssemblyInstruction(Opcode(Opcodes.EQ), Some(Register(10)), Some(Register(20)), None))
      == Ok([9, 10, 20, Instructions.PADDING])
  {
    var load := AssemblyInstruction(Opcode(Opcodes.LOAD), Some(Register(10)), Some(IntegerOperand(99)), None);
    var eq := AssemblyInstruction(Opcode(Opcodes.EQ), Some(Register(10)), Some(Register(20)), None);
    EncodingAgrees(load);
    EncodingAgrees(eq);
    Instructions.EncodingExamples();
    Instructions.PaddingExample();
  }

  /** Two LOADs, as in the source's program test: the same bytes as the newer encoder's. */
  lemma TwoLoads(r1: Byte, v1: Int32, r2: Byte, v2: Int32)
    requires 0 <= v1 < 0x1_0000 && 0 <= v2 < 0x1_0000
    ensures ProgramEncoding([
      AssemblyInstruction(Opcode(Opcodes.LOAD), Some(Register(r1)), Some(IntegerOperand(v1)), None),
      AssemblyInstruction(Opcode(Opcodes.LOAD), Some(Register(r2)), Some(IntegerOperand(v2)), None)
    ]) == Ok([1, r1, v1 / 256, v1 % 256, 1, r2, v2 / 256, v2 % 256])
  {
    var a := AssemblyInstruction(Opcode(Opcodes.LOAD), Some(Register(r1)), Some(IntegerOperand(v1)), None);
    var b := AssemblyInstruction(Opcode(Opcodes.LOAD), Some(Register(r2)), Some(IntegerOperand(v2)), None);
    ProgramAgrees([a, b]);
    Programs.TwoLoads(r1, v1, r2, v2);
    assert a.Lift() == Programs.LoadInstruction(r1, v1) && b.Lift() == Programs.LoadInstruction(r2, v2);
    assert seq(2, i requires 0 <= i < 2 => [a, b][i].Lift()) == [a.Lift(), b.Lift()];
  }
}
