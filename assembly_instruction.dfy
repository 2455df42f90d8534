/**
 * One assembly line (src/assembler/assembly_instruction.rs) and its
 * encoding: the opcode's byte, the operands' bytes, then 0xFF padding up to
 * four bytes.
 */
module Instructions {
  import opened Base
  import opened Results
  import opened Tokens
  import Opcodes

  /** The filler byte; 0 would read as register 0. */
  const PADDING: Byte := 0xFF

  /** The width every short instruction is padded to. */
  const WIDTH: nat := 4

  datatype AssemblyInstruction = AssemblyInstruction(
    opcode: Option<Token>,
    labelDecl: Option<Token>,
    directive: Option<Token>,
    operand1: Option<Token>,
    operand2: Option<Token>,
    operand3: Option<Token>)
  {
    function Operands(): seq<Option<Token>> {
      [operand1, operand2, operand3]
    }

    /** `AssemblyInstruction::to_bytes`, a loop over the operands and a padding loop. */
    method ToBytes() returns (r: Result<seq<Byte>, EncodeError>)
      ensures r == Encoding(this)
    {
      var result: seq<Byte> := [];
      match opcode {
        case None =>
          return Err(MissingOpcode);
        case Some(op) =>
          result :- op.ToBytes();
      }
      ghost var head := result;
      assert opcode.Some? && opcode.value.ToBytes() == Ok(head);
      var operands := Operands();
      for i := 0 to |operands|
        invariant OperandBytes(operands[..i]).Ok?
        invariant result == head + OperandBytes(operands[..i]).value
      {
        assert operands[..i + 1][..i] == operands[..i];
        match operands[i] {
          case None =>
          case Some(t) =>
            var bytes := t.ToBytes();
            if bytes.Err? {
              OperandBytesOk(operands[..i]);
              OperandBytesError(operands, i);
              return Err(bytes.error);
            }
            result := result + bytes.value;
        }
      }
      assert operands[..|operands|] == operands;
      assert Unpadded(this) == Ok(result);
      result := Pad(result);
      return Ok(result);
    }
  }

  /** The padding loop of `to_bytes`: appends PADDING one byte at a time until WIDTH bytes are there. */
  method Pad(natural: seq<Byte>) returns (result: seq<Byte>)
    ensures result == Padded(natural)
  {
    result := natural;
    assert result == natural + [];
    while |result| < WIDTH
      invariant |natural| <= |result| <= Max(WIDTH, |natural|)
      invariant result == natural + seq(|result| - |natural|, _ => PADDING)
    {
      result := result + [PADDING];
    }
  }

  function Max(a: nat, b: nat): nat {
    if a < b then b else a
  }

  /** The bytes of the present tokens of `ts`, in order; an absent token adds nothing. */
  function OperandBytes(ts: seq<Option<Token>>): Result<seq<Byte>, EncodeError>
  {
    if ts == [] then Ok([])
    else
      var front :- OperandBytes(ts[..|ts| - 1]);
      match ts[|ts| - 1]
      case None => Ok(front)
      case Some(t) =>
        var bytes :- t.ToBytes();
        Ok(front + bytes)
  }

  /** The opcode's bytes followed by the operands' bytes, before padding. */
  function Unpadded(inst: AssemblyInstruction): Result<seq<Byte>, EncodeError> {
    match inst.opcode
    case None => Err(MissingOpcode)
    case Some(op) =>
      var head :- op.ToBytes();
      var tail :- OperandBytes(inst.Operands());
      Ok(head + tail)
  }

  /** Appends PADDING until there are at least WIDTH bytes; never truncates. */
  function Padded(s: seq<Byte>): (r: seq<Byte>)
    ensures |r| == Max(WIDTH, |s|)
    ensures r[..|s|] == s
    ensures forall i :: |s| <= i < |r| ==> r[i] == PADDING
  {
    if |s| < WIDTH then s + seq(WIDTH - |s|, _ => PADDING) else s
  }

  /** What `AssemblyInstruction::to_bytes` produces, or why it stops. */
  function Encoding(inst: AssemblyInstruction): Result<seq<Byte>, EncodeError> {
    var natural :- Unpadded(inst);
    Ok(Padded(natural))
  }

  /** Number of bytes an encodable token takes. */
  function TokenWidth(t: Token): nat {
    if t.IntegerOperand? then 2 else 1
  }

  /** Number of bytes the present tokens of `ts` take. */
  function Width(ts: seq<Option<Token>>): nat {
    if ts == [] then 0
    else
      Width(ts[..|ts| - 1]) + match ts[|ts| - 1]
        case None => 0
        case Some(t) => TokenWidth(t)
  }

  predicate AllEncodable(ts: seq<Option<Token>>) {
    forall i :: 0 <= i < |ts| && ts[i].Some? ==> ts[i].value.Encodable()
  }

  /**
   * The operand bytes exist exactly when every present token is encodable;
   * they then take one byte per opcode or register and two per integer.
   */
  lemma {:induction false} OperandBytesOk(ts: seq<Option<Token>>)
    ensures OperandBytes(ts).Ok? <==> AllEncodable(ts)
    ensures OperandBytes(ts).Ok? ==> |OperandBytes(ts).value| == Width(ts)
  {
    if ts != [] {
      var front := ts[..|ts| - 1];
      OperandBytesOk(front);
      assert AllEncodable(ts) <==> AllEncodable(front) && (ts[|ts| - 1].Some? ==> ts[|ts| - 1].value.Encodable());
    }
  }

  /** The first token that cannot be encoded is the one reported. */
  lemma {:induction false} OperandBytesError(ts: seq<Option<Token>>, k: nat)
    requires k < |ts| && ts[k].Some? && !ts[k].value.Encodable()
    requires AllEncodable(ts[..k])
    ensures OperandBytes(ts) == Err(Unimplemented(ts[k].value))
  {
    var front := ts[..|ts| - 1];
    if k < |ts| - 1 {
      assert front[..k] == ts[..k];
      OperandBytesError(front, k);
    } else {
      assert front == ts[..k];
      OperandBytesOk(front);
    }
  }

  /** Encoding fails exactly when the opcode is missing or some present token is not encodable. */
  lemma EncodingOk(inst: AssemblyInstruction)
    ensures Encoding(inst).Ok? <==>
      inst.opcode.Some? && inst.opcode.value.Encodable() && AllEncodable(inst.Operands())
    ensures inst.opcode.None? ==> Encoding(inst) == Err(MissingOpcode)
  {
    OperandBytesOk(inst.Operands());
  }

  /** The first byte of an encoded instruction is its opcode's code. */
  lemma EncodingStartsWithOpcode(inst: AssemblyInstruction, op: Opcodes.Opcode)
    requires inst.opcode == Some(Opcode(op)) && Encoding(inst).Ok?
    ensures Encoding(inst).value[0] == Opcodes.Code(op)
  {
    var head := Opcode(op).ToBytes().value;
    var natural := Unpadded(inst).value;
    assert natural[..1] == head;
    assert Encoding(inst).value[..|natural|] == natural;
  }

  /**
   * The operand bytes follow the opcode's bytes unchanged and in order, and
   * every later byte is padding.
   */
  lemma EncodingLayout(inst: AssemblyInstruction)
    requires Encoding(inst).Ok?
    ensures var head := inst.opcode.value.ToBytes().value;
            var tail := OperandBytes(inst.Operands()).value;
            var r := Encoding(inst).value;
            && |r| == Max(WIDTH, |head| + |tail|)
            && r[..|head|] == head
            && r[|head|..|head| + |tail|] == tail
            && forall i :: |head| + |tail| <= i < |r| ==> r[i] == PADDING
  {
    var head := inst.opcode.value.ToBytes().value;
    var tail := OperandBytes(inst.Operands()).value;
    var r := Encoding(inst).value;
    assert r[..|head| + |tail|] == head + tail;
    assert r[..|head|] == (head + tail)[..|head|];
    assert r[|head|..|head| + |tail|] == (head + tail)[|head|..];
  }

  /**
   * An encoded instruction takes 4 bytes unless its tokens need more: at
   * most 7 behind an opcode token, 8 if an integer token stands in the
   * opcode field.
   */
  lemma EncodingLength(inst: AssemblyInstruction)
    requires Encoding(inst).Ok?
    ensures |Encoding(inst).value| == Max(WIDTH, TokenWidth(inst.opcode.value) + Width(inst.Operands()))
    ensures WIDTH <= |Encoding(inst).value| <= 8
    ensures inst.opcode.value.Opcode? ==> |Encoding(inst).value| <= 7
  {
    var ts := inst.Operands();
    OperandBytesOk(ts);
    assert ts[..3] == ts && ts[..3][..2] == ts[..2] && ts[..2][..1] == ts[..1] && ts[..1][..0] == [];
    assert Width(ts[..1]) <= 2 && Width(ts[..2]) <= 4 && Width(ts) <= 6;
  }

  /** The label (`labelDecl`) and directive fields do not affect the bytes. */
  lemma LabelAndDirectiveIgnored(inst: AssemblyInstruction, labelDecl: Option<Token>, directive: Option<Token>)
    ensures Encoding(inst.(labelDecl := labelDecl, directive := directive)) == Encoding(inst)
  {
  }

  /** An instruction with an opcode and two encodable operands: their bytes in order, padded. */
  lemma TwoOperands(op: Opcodes.Opcode, a: Token, b: Token)
    requires a.Encodable() && b.Encodable()
    ensures Encoding(AssemblyInstruction(Some(Opcode(op)), None, None, Some(a), Some(b), None))
      == Ok(Padded([Opcodes.Code(op)] + a.ToBytes().value + b.ToBytes().value))
  {
    var ts := [Some(a), Some(b), None];
    var x, y := a.ToBytes().value, b.ToBytes().value;
    assert ts[..2] == [Some(a), Some(b)];
    assert ts[..2][..1] == [Some(a)] && ts[..2][..1][..0] == [];
    assert OperandBytes(ts[..2][..1]) == Ok([] + x);
    assert [] + x == x;
    assert OperandBytes(ts[..2]) == Ok(x + y);
    assert OperandBytes(ts) == Ok(x + y);
    var inst := AssemblyInstruction(Some(Opcode(op)), None, None, Some(a), Some(b), None);
    assert inst.Operands() == ts;
    assert Unpadded(inst) == Ok([Opcodes.Code(op)] + (x + y));
    assert [Opcodes.Code(op)] + (x + y) == [Opcodes.Code(op)] + x + y;
  }

  /** The first example of the source's test: a LOAD fills four bytes, the integer taking two. */
  lemma EncodingExamples()
    ensures Encoding(AssemblyInstruction(Some(Opcode(Opcodes.LOAD)), None, None,
      Some(Register(10)), Some(IntegerOperand(99)), None)) == Ok([1, 10, 0, 99])
  {
    TwoOperands(Opcodes.LOAD, Register(10), IntegerOperand(99));
    assert IntegerOperand(99).ToBytes().value == [0, 99];
    var load := [Opcodes.Code(Opcodes.LOAD)] + [10] + [0, 99];
    assert load == [1, 10, 0, 99];
  }

  /** The second example of the source's test: an EQ of two registers is padded with one 0xFF. */
  lemma PaddingExample()
    ensures Encoding(AssemblyInstruction(Some(Opcode(Opcodes.EQ)), None, None,
      Some(Register(10)), Some(Register(20)), None)) == Ok([9, 10, 20, PADDING])
  {
    TwoOperands(Opcodes.EQ, Register(10), Register(20));
    assert Register(10).ToBytes().value == [10] && Register(20).ToBytes().value == [20];
    var eq := [Opcodes.Code(Opcodes.EQ)] + [10] + [20];
    assert eq == [9, 10, 20];
    assert Padded(eq) == [9, 10, 20, PADDING];
  }
}
