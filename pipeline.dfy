/**
 * The assembler and the machine together: a printed `LOAD $r #v` is read
 * back by the parser, turned into bytes by the encoder and executed; the
 * register ends up holding the low 16 bits of `v`, because the encoder keeps
 * only those and LOAD zero-extends them.
 */
module Pipeline {
  import opened Base
  import Results
  import opened Tokens
  import Opcodes
  import Instructions
  import Programs
  import Parsers
  import Rendering
  import Semantics

  /** The four bytes of `LOAD $r #v`: the opcode, the register, the high and low byte of `v`'s low 16 bits. */
  function LoadBytes(r: Byte, v: Int32): (b: seq<Byte>)
    ensures |b| == 4 && b[0] == 1 && b[1] == r && BigEndian16(b[2], b[3]) == v % 0x1_0000
  {
    [1, r, (v % 0x1_0000) / 256, (v % 0x1_0000) % 256]
  }

  /** `LOAD $r #v` encodes to `LoadBytes(r, v)`, whatever the sign and size of `v`. */
  lemma LoadEncodes(r: Byte, v: Int32)
    ensures Instructions.Encoding(Programs.LoadInstruction(r, v)) == Results.Ok(LoadBytes(r, v))
  {
    Instructions.TwoOperands(Opcodes.LOAD, Register(r), IntegerOperand(v));
    assert [Opcodes.Code(Opcodes.LOAD)] + [r] + IntegerOperand(v).ToBytes().value == LoadBytes(r, v);
  }

  /** A program of the one instruction `LOAD $r #v` is exactly its four bytes. */
  lemma LoadProgramEncodes(r: Byte, v: Int32)
    ensures Programs.Encoding([Programs.LoadInstruction(r, v)]) == Results.Ok(LoadBytes(r, v))
  {
    var ps := Programs.Parts([Programs.LoadInstruction(r, v)]);
    LoadEncodes(r, v);
    Programs.ConcatenationStep(ps, 0);
    assert ps[..0] == [] && ps[..1] == ps;
    assert [] + LoadBytes(r, v) == LoadBytes(r, v);
  }

  /** Running those four bytes: register r gets the low 16 bits of `v`, `pc` reaches the end, and the run is done. */
  lemma LoadRuns(r: Byte, v: Int32)
    requires r < Semantics.REGISTER_COUNT
    ensures var m := Semantics.Loaded(LoadBytes(r, v));
      Semantics.Run(m, 2) == Results.Ok((m.(registers := m.registers[r := v % 0x1_0000], pc := 4), true))
  {
    var m := Semantics.Loaded(LoadBytes(r, v));
    assert Opcodes.FromByte(1) == Opcodes.LOAD;
    Semantics.LoadSpec(m);
    var next := m.(registers := m.registers[r := v % 0x1_0000], pc := 4);
    assert Semantics.Step(m) == Results.Ok((next, false));
    Semantics.RunContinues(m, next, 1);
    Semantics.EndOfProgram(next);
    Semantics.RunStops(next, next, 0);
  }

  /** The printed `LOAD $r #v` parses back to that instruction. */
  lemma LoadTextParses(r: Byte, v: Int32)
    requires v >= 0
    ensures var inst := Programs.LoadInstruction(r, v);
      && Rendering.PrintableInstruction(inst)
      && Parsers.ParseProgram(Rendering.RenderProgram([inst], [Rendering.Canonical(inst)], []))
         == Parsers.Ok("", Programs.Program([inst]))
  {
    var inst := Programs.LoadInstruction(r, v);
    assert Rendering.Present(inst) == [Register(r), IntegerOperand(v)];
    var text := Rendering.RenderProgram([inst], [Rendering.Canonical(inst)], []);
    Rendering.ProgramParses([inst], [Rendering.Canonical(inst)], [], "", "");
    assert "" + text + "" == text;
  }

  /**
   * From text to registers: the printed `LOAD $r #v` parses back to that
   * instruction, the program encodes to its four bytes, and running them
   * leaves `v mod 65536` in register r and every other register 0.
   */
  lemma AssembleAndRun(r: Byte, v: Int32)
    requires r < Semantics.REGISTER_COUNT && v >= 0
    ensures var inst := Programs.LoadInstruction(r, v);
      && Rendering.PrintableInstruction(inst)
      && Parsers.ParseProgram(Rendering.RenderProgram([inst], [Rendering.Canonical(inst)], []))
         == Parsers.Ok("", Programs.Program([inst]))
      && Programs.Encoding([inst]) == Results.Ok(LoadBytes(r, v))
      && var run := Semantics.Run(Semantics.Loaded(LoadBytes(r, v)), 2);
        && run.Ok? && run.value.1
        && run.value.0.registers[r] == v % 0x1_0000
        && forall i :: 0 <= i < Semantics.REGISTER_COUNT && i != r ==> run.value.0.registers[i] == 0
  {
    LoadTextParses(r, v);
    LoadProgramEncodes(r, v);
    LoadRuns(r, v);
  }
}
