/** A whole program (src/assembler/program.rs): the instructions' bytes, concatenated in order. */
module Programs {
  import opened Base
  import opened Results
  import opened Tokens
  import Instructions
  import Symbols
  import Opcodes

  /** The instruction width, as in Instructions. */
  const WIDTH: nat := Instructions.WIDTH

  datatype Program = Program(instructions: seq<Instructions.AssemblyInstruction>) {
    /**
     * `Program::to_bytes`: appends each instruction's bytes in a loop. The
     * symbol table is passed along by the caller but not consulted.
     */
    method ToBytes(symbols: Symbols.SymbolTable) returns (r: Result<seq<Byte>, EncodeError>)
      ensures r == Encoding(instructions)
    {
      var result: seq<Byte> := [];
      ghost var parts := Parts(instructions);
      for i := 0 to |instructions|
        invariant Concatenation(parts[..i]) == Ok(result)
      {
        ConcatenationStep(parts, i);
        var bytes := instructions[i].ToBytes();
        if bytes.Err? {
          ConcatenationPrefixError(parts, i + 1);
          return Err(bytes.error);
        }
        result := result + bytes.value;
      }
      assert parts[..|instructions|] == parts;
      return Ok(result);
    }
  }

  /** Each instruction's own encoding, in program order. */
  function Parts(insts: seq<Instructions.AssemblyInstruction>): (ps: seq<Result<seq<Byte>, EncodeError>>)
    ensures |ps| == |insts| && forall i :: 0 <= i < |insts| ==> ps[i] == Instructions.Encoding(insts[i])
  {
    seq(|insts|, i requires 0 <= i < |insts| => Instructions.Encoding(insts[i]))
  }

  /** The concatenation of the parts' bytes, or the error of the first part that has one. */
  function Concatenation(ps: seq<Result<seq<Byte>, EncodeError>>): Result<seq<Byte>, EncodeError> {
    if ps == [] then Ok([])
    else
      var front :- Concatenation(ps[..|ps| - 1]);
      var last :- ps[|ps| - 1];
      Ok(front + last)
  }

  /** The bytes `Program::to_bytes` produces for `insts`, or the first instruction's error. */
  function Encoding(insts: seq<Instructions.AssemblyInstruction>): Result<seq<Byte>, EncodeError> {
    Concatenation(Parts(insts))
  }

  /** One more part: its error, or its bytes appended. */
  lemma ConcatenationStep(ps: seq<Result<seq<Byte>, EncodeError>>, i: nat)
    requires i < |ps|
    ensures Concatenation(ps[..i + 1]) ==
      if Concatenation(ps[..i]).Err? then Concatenation(ps[..i])
      else if ps[i].Err? then Err(ps[i].error)
      else Ok(Concatenation(ps[..i]).value + ps[i].value)
  {
    assert ps[..i + 1][..i] == ps[..i];
  }

  /** The first part that fails decides the error of the whole. */
  lemma {:induction false} ConcatenationPrefixError(ps: seq<Result<seq<Byte>, EncodeError>>, k: nat)
    requires k <= |ps| && Concatenation(ps[..k]).Err?
    ensures Concatenation(ps) == Concatenation(ps[..k])
  {
    if k == |ps| {
      assert ps[..k] == ps;
    } else {
      var front := ps[..|ps| - 1];
      assert front[..k] == ps[..k];
      ConcatenationPrefixError(front, k);
    }
  }

  /** Sum of the lengths of parts that all succeed. */
  function TotalLength(ps: seq<Result<seq<Byte>, EncodeError>>): nat
    requires forall i :: 0 <= i < |ps| ==> ps[i].Ok?
  {
    if ps == [] then 0 else TotalLength(ps[..|ps| - 1]) + |ps[|ps| - 1].value|
  }

  /** The concatenation succeeds exactly when every part does; its length is then the sum of theirs. */
  lemma {:induction false} ConcatenationOk(ps: seq<Result<seq<Byte>, EncodeError>>)
    ensures Concatenation(ps).Ok? <==> forall i :: 0 <= i < |ps| ==> ps[i].Ok?
    ensures Concatenation(ps).Ok? ==> |Concatenation(ps).value| == TotalLength(ps)
  {
    if ps != [] {
      var front := ps[..|ps| - 1];
      ConcatenationOk(front);
      assert forall i :: 0 <= i < |front| ==> front[i] == ps[i];
    }
  }

  /** Concatenation distributes over appending part lists. */
  lemma {:induction false} ConcatenationAppend(a: seq<Result<seq<Byte>, EncodeError>>, b: seq<Result<seq<Byte>, EncodeError>>)
    requires Concatenation(a).Ok? && Concatenation(b).Ok?
    ensures Concatenation(a + b).Ok? && Concatenation(a + b).value == Concatenation(a).value + Concatenation(b).value
  {
    if b == [] {
      assert a + b == a;
    } else {
      var front := b[..|b| - 1];
      assert (a + b)[..|a + b| - 1] == a + front;
      assert (a + b)[|a + b| - 1] == b[|b| - 1];
      ConcatenationAppend(a, front);
    }
  }

  /** Every part is four bytes long. */
  predicate Uniform(ps: seq<Result<seq<Byte>, EncodeError>>) {
    forall i :: 0 <= i < |ps| ==> ps[i].Ok? && |ps[i].value| == WIDTH
  }

  /** With four-byte parts, the whole takes 4·n bytes and part i sits at offset 4·i. */
  lemma {:induction false} UniformConcatenation(ps: seq<Result<seq<Byte>, EncodeError>>, i: nat)
    requires Uniform(ps) && i < |ps|
    ensures Concatenation(ps).Ok? && |Concatenation(ps).value| == WIDTH * |ps|
    ensures Concatenation(ps).value[WIDTH * i..WIDTH * i + WIDTH] == ps[i].value
  {
    var n := |ps|;
    var front := ps[..n - 1];
    var last := ps[n - 1].value;
    if n == 1 {
      assert front == [];
      assert Concatenation(ps).Ok? && Concatenation(ps).value == last;
    } else {
      UniformConcatenation(front, if i < n - 1 then i else 0);
      var f := Concatenation(front).value;
      assert Concatenation(ps).value == f + last;
      if i < n - 1 {
        assert (f + last)[WIDTH * i..WIDTH * i + WIDTH] == f[WIDTH * i..WIDTH * i + WIDTH];
      } else {
        assert (f + last)[WIDTH * i..WIDTH * i + WIDTH] == last;
      }
    }
  }

  /** A program encodes exactly when every instruction does, to the sum of their lengths. */
  lemma EncodingOk(insts: seq<Instructions.AssemblyInstruction>)
    ensures Encoding(insts).Ok? <==> forall i :: 0 <= i < |insts| ==> Instructions.Encoding(insts[i]).Ok?
    ensures Encoding(insts).Ok? ==> |Encoding(insts).value| == TotalLength(Parts(insts))
  {
    ConcatenationOk(Parts(insts));
  }

  /** An empty program encodes to no bytes. */
  lemma EmptyProgram()
    ensures Encoding([]) == Ok([])
  {
  }

  /** Encoding two instruction lists one after the other gives their bytes one after the other. */
  lemma EncodingAppend(a: seq<Instructions.AssemblyInstruction>, b: seq<Instructions.AssemblyInstruction>)
    requires Encoding(a).Ok? && Encoding(b).Ok?
    ensures Encoding(a + b).Ok? && Encoding(a + b).value == Encoding(a).value + Encoding(b).value
  {
    assert Parts(a + b) == Parts(a) + Parts(b);
    ConcatenationAppend(Parts(a), Parts(b));
  }

  /**
   * When every instruction takes four bytes, the program takes 4·n bytes
   * and instruction i occupies bytes 4·i up to 4·i + 4.
   */
  lemma UniformLayout(insts: seq<Instructions.AssemblyInstruction>, i: nat)
    requires i < |insts|
    requires forall j :: 0 <= j < |insts| ==>
      Instructions.Encoding(insts[j]).Ok? && |Instructions.Encoding(insts[j]).value| == WIDTH
    ensures Encoding(insts).Ok? && |Encoding(insts).value| == WIDTH * |insts|
    ensures Encoding(insts).value[WIDTH * i..WIDTH * i + WIDTH] == Instructions.Encoding(insts[i]).value
  {
    UniformConcatenation(Parts(insts), i);
  }

  /** The instruction `LOAD $r #v`. */
  function LoadInstruction(r: Byte, v: Int32): Instructions.AssemblyInstruction {
    Instructions.AssemblyInstruction(Some(Opcode(Opcodes.LOAD)), None, None, Some(Register(r)), Some(IntegerOperand(v)), None)
  }

  /**
   * Two LOADs encode to their two four-byte encodings, one after the other
   * (the source's test: `LOAD $0 #100` and `LOAD $1 #200` give
   * [1, 0, 0, 100, 1, 1, 0, 200]).
   */
  lemma TwoLoads(r1: Byte, v1: Int32, r2: Byte, v2: Int32)
    requires 0 <= v1 < 0x1_0000 && 0 <= v2 < 0x1_0000
    ensures Encoding([LoadInstruction(r1, v1), LoadInstruction(r2, v2)])
      == Ok([1, r1, v1 / 256, v1 % 256, 1, r2, v2 / 256, v2 % 256])
  {
    LoadEncoding(r1, v1);
    LoadEncoding(r2, v2);
    var ps := Parts([LoadInstruction(r1, v1), LoadInstruction(r2, v2)]);
    var x, y := [1, r1, v1 / 256, v1 % 256], [1, r2, v2 / 256, v2 % 256];
    ConcatenationStep(ps, 0);
    assert ps[..0] == [] && [] + x == x;
    assert Concatenation(ps[..1]) == Ok(x);
    ConcatenationStep(ps, 1);
    assert ps[..2] == ps;
    assert x + y == [1, r1, v1 / 256, v1 % 256, 1, r2, v2 / 256, v2 % 256];
  }

  /** The source's test: the two LOADs, put through `to_bytes` with an empty symbol table. */
  method ToBytesExample() returns (r: Result<seq<Byte>, EncodeError>)
    ensures r == Ok([1, 0, 0, 100, 1, 1, 0, 200])
  {
    var insts := [LoadInstruction(0, 100), LoadInstruction(1, 200)];
    TestLoads(insts, 0, 100, 1, 200);
    r := Program(insts).ToBytes(Symbols.EMPTY);
  }

  /** The two LOADs of the source's test, encoded. */
  lemma TestLoads(insts: seq<Instructions.AssemblyInstruction>, r1: Byte, v1: Int32, r2: Byte, v2: Int32)
    requires r1 == 0 && v1 == 100 && r2 == 1 && v2 == 200
    requires insts == [LoadInstruction(r1, v1), LoadInstruction(r2, v2)]
    ensures Encoding(insts) == Ok([1, 0, 0, 100, 1, 1, 0, 200])
  {
    TwoLoads(r1, v1, r2, v2);
    assert v1 / 256 == 0 && v1 % 256 == 100 && v2 / 256 == 0 && v2 % 256 == 200;
  }

  /** `LOAD $r #v` with 0 <= v < 65536 encodes to [1, r, v / 256, v % 256]. */
  lemma LoadEncoding(r: Byte, v: Int32)
    requires 0 <= v < 0x1_0000
    ensures var e := Instructions.Encoding(LoadInstruction(r, v));
            e.Ok? && e.value == [1, r, v / 256, v % 256]
  {
    Instructions.TwoOperands(Opcodes.LOAD, Register(r), IntegerOperand(v));
    assert v % 0x1_0000 == v;
    assert IntegerOperand(v).ToBytes().value == [v / 256, v % 256];
    assert [1] + [r] + [v / 256, v % 256] == [1, r, v / 256, v % 256];
  }
}
