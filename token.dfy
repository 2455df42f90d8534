/** The tokens of src/assembler/token.rs and their byte encoding. */
module Tokens {
  import opened Base
  import opened Results
  import Opcodes

  datatype Token =
    | Opcode(op: Opcodes.Opcode)
    | Register(index: Byte)
    | IntegerOperand(value: Int32)
    | LabelDeclaration(name: string)
    | LabelUsage(name: string)
    | Directive(name: string)
  {
    /** The tokens `Token::to_bytes` handles; the others reach `unimplemented!()`. */
    predicate Encodable() {
      Opcode? || Register? || IntegerOperand?
    }

    /**
     * `Token::to_bytes`: an opcode is its code, a register its index, an
     * integer the high then the low byte of its low 16 bits.
     */
    function ToBytes(): (r: Result<seq<Byte>, EncodeError>)
      ensures r.Ok? <==> Encodable()
      ensures r.Err? ==> r.error == Unimplemented(this)
      ensures Opcode? ==> r == Ok([Opcodes.Code(op)])
      ensures Register? ==> r == Ok([index])
      ensures IntegerOperand? ==> r.Ok? && |r.value| == 2 && BigEndian16(r.value[0], r.value[1]) == value % 0x1_0000
    {
      match this
      case Opcode(op) => Ok([Opcodes.Code(op)])
      case Register(index) => Ok([index])
      case IntegerOperand(value) =>
        var low16 := value % 0x1_0000;
        Ok([low16 / 256, low16 % 256])
      case _ => Err(Unimplemented(this))
    }
  }

  /** Why an instruction could not be turned into bytes (the source exits or panics). */
  datatype EncodeError =
    | Unimplemented(token: Token)
    | MissingOpcode
    | NotAnOpcode(token: Token)

  /** An opcode or register token takes one byte, an integer two. */
  lemma TokenWidth(t: Token)
    requires t.Encodable()
    ensures |t.ToBytes().value| == if t.IntegerOperand? then 2 else 1
  {
  }

  /** A non-negative integer below 65536 is recovered from its two bytes. */
  lemma IntegerRoundTrip(v: Int32)
    requires 0 <= v < 0x1_0000
    ensures var b := IntegerOperand(v).ToBytes().value; BigEndian16(b[0], b[1]) == v
  {
  }

  /** A negative integer is encoded through its two's complement: -1 gives [0xFF, 0xFF]. */
  lemma NegativeIntegerExample()
    ensures IntegerOperand(-1).ToBytes() == Ok([0xFF, 0xFF])
    ensures IntegerOperand(65536 + 500).ToBytes() == Ok([1, 244])
  {
    assert -1 % 0x1_0000 == 0xFFFF;
    assert 0xFFFF / 256 == 0xFF && 0xFFFF % 256 == 0xFF;
    assert (65536 + 500) % 0x1_0000 == 500;
    assert 500 / 256 == 1 && 500 % 256 == 244;
  }
}
