/**
 * The instruction and program examples of the tests of
 * src/assembler/parsers.rs, as instances of the round trip of the
 * rendering module: each input is a rendered instruction or program with
 * the test's spelling and whitespace around and between its parts.
 */
module ParserExamples {
  import opened Base
  import opened Text
  import opened Tokens
  import Opcodes
  import Instructions
  import Programs
  import opened Parsers
  import opened Rendering

  // ---------------------------------------------------------------- helpers

  /** An instruction laid out as `layout`, with blank text around it, reads back through its own form and through `parse_instruction`. */
  lemma ReadsBack(input: string, inst: Instructions.AssemblyInstruction, layout: Layout, lead: string, trail: string,
                  kinds: seq<OperandKind>)
    requires Fits(layout, inst) && Blank(lead) && Blank(trail)
    requires input == lead + Render(inst, layout) + trail && kinds == KindsOf(Present(inst))
    ensures |kinds| <= 3 && ParseForm(input, kinds) == Ok("", inst) && ParseInstruction(input) == Ok("", inst)
  {
    InstructionReadBack(inst, layout, lead, trail);
  }

  /** Form 0: the opcode alone, spelled `word`. */
  lemma BareText(op: Opcodes.Opcode, word: string)
    requires Opcodes.UpperCase(word) == Opcodes.Mnemonic(op)
    ensures var inst := Instruction(Opcode(op), None, None, None);
      Fits(Layout(word, []), inst) && Render(inst, Layout(word, [])) == word
  {
    var inst := Instruction(Opcode(op), None, None, None);
    assert Present(inst) == [];
    assert word + "" == word;
  }

  /** Form 1: a register and a number after gaps `g1` and `g2`. */
  lemma RegisterNumberText(op: Opcodes.Opcode, word: string, r: Byte, v: Int32, g1: string, g2: string)
    requires Opcodes.UpperCase(word) == Opcodes.Mnemonic(op) && Gap(g1) && Gap(g2) && v >= 0
    ensures var inst := Instruction(Opcode(op), Some(Register(r)), Some(IntegerOperand(v)), None);
      var layout := Layout(word, [g1, g2]);
      && Fits(layout, inst)
      && Render(inst, layout) == word + (g1 + OperandText(Register(r)) + (g2 + OperandText(IntegerOperand(v))))
  {
    var inst := Instruction(Opcode(op), Some(Register(r)), Some(IntegerOperand(v)), None);
    var ts := [Register(r), IntegerOperand(v)];
    assert Present(inst) == ts;
    assert Gaps([g1, g2]);
    assert OperandsText(ts[1..], [g2]) == g2 + OperandText(ts[1]) + "";
  }

  /** Form 2: three registers after gaps `g1`, `g2` and `g3`. */
  lemma ThreeRegistersText(op: Opcodes.Opcode, word: string, r1: Byte, r2: Byte, r3: Byte, g1: string, g2: string, g3: string)
    requires Opcodes.UpperCase(word) == Opcodes.Mnemonic(op) && Gap(g1) && Gap(g2) && Gap(g3)
    ensures var inst := Instruction(Opcode(op), Some(Register(r1)), Some(Register(r2)), Some(Register(r3)));
      var layout := Layout(word, [g1, g2, g3]);
      && Fits(layout, inst)
      && Render(inst, layout)
         == word + (g1 + OperandText(Register(r1)) + (g2 + OperandText(Register(r2)) + (g3 + OperandText(Register(r3)))))
  {
    var inst := Instruction(Opcode(op), Some(Register(r1)), Some(Register(r2)), Some(Register(r3)));
    var ts := [Register(r1), Register(r2), Register(r3)];
    var gs := [g1, g2, g3];
    assert Present(inst) == ts;
    assert Gaps(gs);
    var last := OperandsText(ts[2..], gs[2..]);
    assert last == g3 + OperandText(Register(r3)) by {
      assert ts[2..] == [Register(r3)] && gs[2..] == [g3];
    }
    assert OperandsText(ts[1..], gs[1..]) == g2 + OperandText(Register(r2)) + last by {
      assert ts[1..][1..] == ts[2..] && gs[1..][1..] == gs[2..];
    }
  }

  /** Form 3: two registers after gaps `g1` and `g2`. */
  lemma TwoRegistersText(op: Opcodes.Opcode, word: string, r1: Byte, r2: Byte, g1: string, g2: string)
    requires Opcodes.UpperCase(word) == Opcodes.Mnemonic(op) && Gap(g1) && Gap(g2)
    ensures var inst := Instruction(Opcode(op), Some(Register(r1)), Some(Register(r2)), None);
      var layout := Layout(word, [g1, g2]);
      && Fits(layout, inst)
      && Render(inst, layout) == word + (g1 + OperandText(Register(r1)) + (g2 + OperandText(Register(r2))))
  {
    var inst := Instruction(Opcode(op), Some(Register(r1)), Some(Register(r2)), None);
    var ts := [Register(r1), Register(r2)];
    assert Present(inst) == ts;
    assert Gaps([g1, g2]);
    assert OperandsText(ts[1..], [g2]) == g2 + OperandText(ts[1]) + "";
  }

  /** Form 4: one register after the gap `g`. */
  lemma OneRegisterText(op: Opcodes.Opcode, word: string, r: Byte, g: string)
    requires Opcodes.UpperCase(word) == Opcodes.Mnemonic(op) && Gap(g)
    ensures var inst := Instruction(Opcode(op), Some(Register(r)), None, None);
      var layout := Layout(word, [g]);
      && Fits(layout, inst)
      && Render(inst, layout) == word + (g + OperandText(Register(r)))
  {
    var inst := Instruction(Opcode(op), Some(Register(r)), None, None);
    var ts := [Register(r)];
    assert Present(inst) == ts;
    assert Gaps([g]);
    assert OperandsText(ts, [g]) == g + OperandText(ts[0]) + "";
  }

  /** Regrouping the text of an instruction with one, two or three operands as `Render` builds it. */
  lemma OneOperandRegrouped(line: string, w: string, g1: string, o1: string)
    requires line == w + g1 + o1
    ensures line == w + (g1 + o1)
  {
  }

  lemma TwoOperandsRegrouped(line: string, w: string, g1: string, o1: string, g2: string, o2: string)
    requires line == w + g1 + o1 + g2 + o2
    ensures line == w + (g1 + o1 + (g2 + o2))
  {
  }

  lemma ThreeOperandsRegrouped(line: string, w: string, g1: string, o1: string, g2: string, o2: string, g3: string, o3: string)
    requires line == w + g1 + o1 + g2 + o2 + g3 + o3
    ensures line == w + (g1 + o1 + (g2 + o2 + (g3 + o3)))
  {
  }

  // ---------------------------------------------------------------- reading back each form

  /** The bare opcode form between blank `lead` and `trail` reads back through `ParseInstruction0` and `ParseInstruction`. */
  lemma BareReadsBack(input: string, op: Opcodes.Opcode, word: string, lead: string, trail: string)
    requires Opcodes.UpperCase(word) == Opcodes.Mnemonic(op) && Blank(lead) && Blank(trail)
    requires input == lead + (word) + trail
    ensures var inst := Instruction(Opcode(op), None, None, None);
      ParseInstruction0(input) == Ok("", inst) && ParseInstruction(input) == Ok("", inst)
  {
    BareText(op, word);
    ReadsBack(input, Instruction(Opcode(op), None, None, None), Layout(word, []), lead, trail, []);
  }

  /** RegisterNumber form between blank `lead` and `trail` reads back through `ParseInstruction1` and `ParseInstruction`. */
  lemma RegisterNumberReadsBack(input: string, op: Opcodes.Opcode, word: string, r: Byte, v: Int32, g1: string, g2: string, lead: string, trail: string)
    requires Opcodes.UpperCase(word) == Opcodes.Mnemonic(op) && Gap(g1) && Gap(g2) && v >= 0 && Blank(lead) && Blank(trail)
    requires input == lead + (word + (g1 + OperandText(Register(r)) + (g2 + OperandText(IntegerOperand(v))))) + trail
    ensures var inst := Instruction(Opcode(op), Some(Register(r)), Some(IntegerOperand(v)), None);
      ParseInstruction1(input) == Ok("", inst) && ParseInstruction(input) == Ok("", inst)
  {
    RegisterNumberText(op, word, r, v, g1, g2);
    ReadsBack(input, Instruction(Opcode(op), Some(Register(r)), Some(IntegerOperand(v)), None), Layout(word, [g1, g2]), lead, trail, [RegisterOperand, NumberOperand]);
  }

  /** ThreeRegisters form between blank `lead` and `trail` reads back through `ParseInstruction2` and `ParseInstruction`. */
  lemma ThreeRegistersReadsBack(input: string, op: Opcodes.Opcode, word: string, r1: Byte, r2: Byte, r3: Byte, g1: string, g2: string, g3: string, lead: string, trail: string)
    requires Opcodes.UpperCase(word) == Opcodes.Mnemonic(op) && Gap(g1) && Gap(g2) && Gap(g3) && Blank(lead) && Blank(trail)
    requires input == lead + (word + (g1 + OperandText(Register(r1)) + (g2 + OperandText(Register(r2)) + (g3 + OperandText(Register(r3)))))) + trail
    ensures var inst := Instruction(Opcode(op), Some(Register(r1)), Some(Register(r2)), Some(Register(r3)));
      ParseInstruction2(input) == Ok("", inst) && ParseInstruction(input) == Ok("", inst)
  {
    ThreeRegistersText(op, word, r1, r2, r3, g1, g2, g3);
    ReadsBack(input, Instruction(Opcode(op), Some(Register(r1)), Some(Register(r2)), Some(Register(r3))), Layout(word, [g1, g2, g3]), lead, trail, [RegisterOperand, RegisterOperand, RegisterOperand]);
  }

  /** TwoRegisters form between blank `lead` and `trail` reads back through `ParseInstruction3` and `ParseInstruction`. */
  lemma TwoRegistersReadsBack(input: string, op: Opcodes.Opcode, word: string, r1: Byte, r2: Byte, g1: string, g2: string, lead: string, trail: string)
    requires Opcodes.UpperCase(word) == Opcodes.Mnemonic(op) && Gap(g1) && Gap(g2) && Blank(lead) && Blank(trail)
    requires input == lead + (word + (g1 + OperandText(Register(r1)) + (g2 + OperandText(Register(r2))))) + trail
    ensures var inst := Instruction(Opcode(op), Some(Register(r1)), Some(Register(r2)), None);
      ParseInstruction3(input) == Ok("", inst) && ParseInstruction(input) == Ok("", inst)
  {
    TwoRegistersText(op, word, r1, r2, g1, g2);
    ReadsBack(input, Instruction(Opcode(op), Some(Register(r1)), Some(Register(r2)), None), Layout(word, [g1, g2]), lead, trail, [RegisterOperand, RegisterOperand]);
  }

  /** OneRegister form between blank `lead` and `trail` reads back through `ParseInstruction4` and `ParseInstruction`. */
  lemma OneRegisterReadsBack(input: string, op: Opcodes.Opcode, word: string, r: Byte, g: string, lead: string, trail: string)
    requires Opcodes.UpperCase(word) == Opcodes.Mnemonic(op) && Gap(g) && Blank(lead) && Blank(trail)
    requires input == lead + (word + (g + OperandText(Register(r)))) + trail
    ensures var inst := Instruction(Opcode(op), Some(Register(r)), None, None);
      ParseInstruction4(input) == Ok("", inst) && ParseInstruction(input) == Ok("", inst)
  {
    OneRegisterText(op, word, r, g);
    ReadsBack(input, Instruction(Opcode(op), Some(Register(r)), None, None), Layout(word, [g]), lead, trail, [RegisterOperand]);
  }

  // ---------------------------------------------------------------- instructions

  /** `test_parse_instruction0`: `"  hlt\t\n  "` is HLT, with nothing left. */
  lemma Instruction0Example(input: string)
    requires input == "  hlt\t\n  "
    ensures var inst := Instruction(Opcode(Opcodes.HLT), None, None, None);
      ParseInstruction0(input) == Ok("", inst) && ParseInstruction(input) == Ok("", inst)
  {
    assert Opcodes.UpperCase("hlt") == "HLT";
    assert input == "  " + "hlt" + "\t\n  ";
    BareReadsBack(input, Opcodes.HLT, "hlt", "  ", "\t\n  ");
  }

  /** The test input of `test_parse_instruction1`, piece by piece. */
  lemma Instruction1Text(input: string)
    requires input == "  load   $9   #299  \t\n"
    ensures input == "  " + ("load" + ("   " + OperandText(Register(9)) + ("   " + OperandText(IntegerOperand(299))))) + "  \t\n"
  {
    var line := "load   $9   #299";
    assert input == "  " + line + "  \t\n";
    assert line == "load" + "   " + "$9" + "   " + "#299";
    assert OperandText(Register(9)) == "$9";
    assert OperandText(IntegerOperand(299)) == "#299" by {
      assert DecimalString(29) == "29";
    }
    TwoOperandsRegrouped(line, "load", "   ", OperandText(Register(9)), "   ", OperandText(IntegerOperand(299)));
  }

  /** `test_parse_instruction1`: `"  load   $9   #299  \t\n"` is LOAD $9 #299, with nothing left. */
  lemma Instruction1Example(input: string)
    requires input == "  load   $9   #299  \t\n"
    ensures var inst := Instruction(Opcode(Opcodes.LOAD), Some(Register(9)), Some(IntegerOperand(299)), None);
      ParseInstruction1(input) == Ok("", inst) && ParseInstruction(input) == Ok("", inst)
  {
    Instruction1Text(input);
    assert Opcodes.UpperCase("load") == "LOAD";
    RegisterNumberReadsBack(input, Opcodes.LOAD, "load", 9, 299, "   ", "   ", "  ", "  \t\n");
  }

  /** The test input of `test_parse_instruction2`, piece by piece. */
  lemma Instruction2Text(input: string)
    requires input == "  add $0 $1 $3 \t\n  "
    ensures input == "  " + ("add" + (" " + OperandText(Register(0)) + (" " + OperandText(Register(1)) + (" " + OperandText(Register(3)))))) + " \t\n  "
  {
    var line := "add $0 $1 $3";
    assert input == "  " + line + " \t\n  ";
    assert line == "add" + " " + "$0" + " " + "$1" + " " + "$3";
    assert OperandText(Register(0)) == "$0" && OperandText(Register(1)) == "$1" && OperandText(Register(3)) == "$3";
    ThreeOperandsRegrouped(line, "add", " ", OperandText(Register(0)), " ", OperandText(Register(1)), " ", OperandText(Register(3)));
  }

  /** `test_parse_instruction2`: `"  add $0 $1 $3 \t\n  "` is ADD $0 $1 $3, with nothing left. */
  lemma Instruction2Example(input: string)
    requires input == "  add $0 $1 $3 \t\n  "
    ensures var inst := Instruction(Opcode(Opcodes.ADD), Some(Register(0)), Some(Register(1)), Some(Register(3)));
      ParseInstruction2(input) == Ok("", inst) && ParseInstruction(input) == Ok("", inst)
  {
    Instruction2Text(input);
    assert Opcodes.UpperCase("add") == "ADD";
    ThreeRegistersReadsBack(input, Opcodes.ADD, "add", 0, 1, 3, " ", " ", " ", "  ", " \t\n  ");
  }

  /** The test input of `test_parse_instruction3`, piece by piece. */
  lemma Instruction3Text(input: string)
    requires input == "  EQ $0 $1 \t\n  "
    ensures input == "  " + ("EQ" + (" " + OperandText(Register(0)) + (" " + OperandText(Register(1))))) + " \t\n  "
  {
    var line := "EQ $0 $1";
    assert input == "  " + line + " \t\n  ";
    assert line == "EQ" + " " + "$0" + " " + "$1";
    assert OperandText(Register(0)) == "$0" && OperandText(Register(1)) == "$1";
    TwoOperandsRegrouped(line, "EQ", " ", OperandText(Register(0)), " ", OperandText(Register(1)));
  }

  /** `test_parse_instruction3`: `"  EQ $0 $1 \t\n  "` is EQ $0 $1, with nothing left. */
  lemma Instruction3Example(input: string)
    requires input == "  EQ $0 $1 \t\n  "
    ensures var inst := Instruction(Opcode(Opcodes.EQ), Some(Register(0)), Some(Register(1)), None);
      ParseInstruction3(input) == Ok("", inst) && ParseInstruction(input) == Ok("", inst)
  {
    Instruction3Text(input);
    assert Opcodes.UpperCase("EQ") == "EQ";
    TwoRegistersReadsBack(input, Opcodes.EQ, "EQ", 0, 1, " ", " ", "  ", " \t\n  ");
  }

  /** The test input of `test_parse_instruction4`, piece by piece. */
  lemma Instruction4Text(input: string)
    requires input == "  jmp $30  \t\n  "
    ensures input == "  " + ("jmp" + (" " + OperandText(Register(30)))) + "  \t\n  "
  {
    var line := "jmp $30";
    assert input == "  " + line + "  \t\n  ";
    assert line == "jmp" + " " + "$30";
    assert OperandText(Register(30)) == "$30" by {
      assert DecimalString(3) == "3";
    }
    OneOperandRegrouped(line, "jmp", " ", OperandText(Register(30)));
  }

  /** `test_parse_instruction4`: `"  jmp $30  \t\n  "` is JMP $30, with nothing left. */
  lemma Instruction4Example(input: string)
    requires input == "  jmp $30  \t\n  "
    ensures var inst := Instruction(Opcode(Opcodes.JMP), Some(Register(30)), None, None);
      ParseInstruction4(input) == Ok("", inst) && ParseInstruction(input) == Ok("", inst)
  {
    Instruction4Text(input);
    assert Opcodes.UpperCase("jmp") == "JMP";
    OneRegisterReadsBack(input, Opcodes.JMP, "jmp", 30, " ", "  ", "  \t\n  ");
  }

  // ---------------------------------------------------------------- the program of `test_parse_program`

  /** A line break of the program and the 17 spaces that indent its next line. */
  const INDENT: string := "\n                 "

  lemma Line0()
    ensures Fits(Layout("load", [" ", " "]), Instruction(Opcode(Opcodes.LOAD), Some(Register(0)), Some(IntegerOperand(100)), None))
    ensures Render(Instruction(Opcode(Opcodes.LOAD), Some(Register(0)), Some(IntegerOperand(100)), None), Layout("load", [" ", " "])) == "load $0 #100"
  {
    assert Opcodes.UpperCase("load") == "LOAD" && Gap(" ");
    RegisterNumberText(Opcodes.LOAD, "load", 0, 100, " ", " ");
    Line0Text("load $0 #100");
  }

  lemma Line0Text(line: string)
    requires line == "load $0 #100"
    ensures line == "load" + (" " + OperandText(Register(0)) + (" " + OperandText(IntegerOperand(100))))
  {
    assert line == "load" + " " + "$0" + " " + "#100";
    assert OperandText(Register(0)) == "$0";
    assert OperandText(IntegerOperand(100)) == "#100" by {
      assert DecimalString(10) == "10";
    }
    TwoOperandsRegrouped(line, "load", " ", OperandText(Register(0)), " ", OperandText(IntegerOperand(100)));
  }

  lemma Line1()
    ensures Fits(Layout("load", [" ", " "]), Instruction(Opcode(Opcodes.LOAD), Some(Register(1)), Some(IntegerOperand(200)), None))
    ensures Render(Instruction(Opcode(Opcodes.LOAD), Some(Register(1)), Some(IntegerOperand(200)), None), Layout("load", [" ", " "])) == "load $1 #200"
  {
    assert Opcodes.UpperCase("load") == "LOAD" && Gap(" ");
    RegisterNumberText(Opcodes.LOAD, "load", 1, 200, " ", " ");
    Line1Text("load $1 #200");
  }

  lemma Line1Text(line: string)
    requires line == "load $1 #200"
    ensures line == "load" + (" " + OperandText(Register(1)) + (" " + OperandText(IntegerOperand(200))))
  {
    assert line == "load" + " " + "$1" + " " + "#200";
    assert OperandText(Register(1)) == "$1";
    assert OperandText(IntegerOperand(200)) == "#200" by {
      assert DecimalString(20) == "20";
    }
    TwoOperandsRegrouped(line, "load", " ", OperandText(Register(1)), " ", OperandText(IntegerOperand(200)));
  }

  lemma Line2()
    ensures Fits(Layout("add", [" ", " ", " "]), Instruction(Opcode(Opcodes.ADD), Some(Register(0)), Some(Register(1)), Some(Register(2))))
    ensures Render(Instruction(Opcode(Opcodes.ADD), Some(Register(0)), Some(Register(1)), Some(Register(2))), Layout("add", [" ", " ", " "])) == "add $0 $1 $2"
  {
    assert Opcodes.UpperCase("add") == "ADD" && Gap(" ");
    ThreeRegistersText(Opcodes.ADD, "add", 0, 1, 2, " ", " ", " ");
    Line2Text("add $0 $1 $2");
  }

  lemma Line2Text(line: string)
    requires line == "add $0 $1 $2"
    ensures line == "add" + (" " + OperandText(Register(0)) + (" " + OperandText(Register(1)) + (" " + OperandText(Register(2)))))
  {
    assert line == "add" + " " + "$0" + " " + "$1" + " " + "$2";
    assert OperandText(Register(0)) == "$0" && OperandText(Register(1)) == "$1" && OperandText(Register(2)) == "$2";
    ThreeOperandsRegrouped(line, "add", " ", OperandText(Register(0)), " ", OperandText(Register(1)), " ", OperandText(Register(2)));
  }

  lemma Line3()
    ensures Fits(Layout("jmp", [" "]), Instruction(Opcode(Opcodes.JMP), Some(Register(9)), None, None))
    ensures Render(Instruction(Opcode(Opcodes.JMP), Some(Register(9)), None, None), Layout("jmp", [" "])) == "jmp $9"
  {
    assert Opcodes.UpperCase("jmp") == "JMP" && Gap(" ");
    OneRegisterText(Opcodes.JMP, "jmp", 9, " ");
    Line3Text("jmp $9");
  }

  lemma Line3Text(line: string)
    requires line == "jmp $9"
    ensures line == "jmp" + (" " + OperandText(Register(9)))
  {
    assert line == "jmp" + " " + "$9";
    assert OperandText(Register(9)) == "$9";
    OneOperandRegrouped(line, "jmp", " ", OperandText(Register(9)));
  }

  lemma Line4()
    ensures Fits(Layout("EQ", [" ", " "]), Instruction(Opcode(Opcodes.EQ), Some(Register(0)), Some(Register(2)), None))
    ensures Render(Instruction(Opcode(Opcodes.EQ), Some(Register(0)), Some(Register(2)), None), Layout("EQ", [" ", " "])) == "EQ $0 $2"
  {
    assert Opcodes.UpperCase("EQ") == "EQ" && Gap(" ");
    TwoRegistersText(Opcodes.EQ, "EQ", 0, 2, " ", " ");
    Line4Text("EQ $0 $2");
  }

  lemma Line4Text(line: string)
    requires line == "EQ $0 $2"
    ensures line == "EQ" + (" " + OperandText(Register(0)) + (" " + OperandText(Register(2))))
  {
    assert line == "EQ" + " " + "$0" + " " + "$2";
    assert OperandText(Register(0)) == "$0" && OperandText(Register(2)) == "$2";
    TwoOperandsRegrouped(line, "EQ", " ", OperandText(Register(0)), " ", OperandText(Register(2)));
  }

  lemma Line5()
    ensures Fits(Layout("hlt", []), Instruction(Opcode(Opcodes.HLT), None, None, None))
    ensures Render(Instruction(Opcode(Opcodes.HLT), None, None, None), Layout("hlt", [])) == "hlt"
  {
    assert Opcodes.UpperCase("hlt") == "HLT";
    BareText(Opcodes.HLT, "hlt");
  }

  /** Lines after their separators. */
  function Joined(lines: seq<string>, separators: seq<string>): string
    requires |separators| == |lines|
  {
    if lines == [] then "" else separators[0] + lines[0] + Joined(lines[1..], separators[1..])
  }

  /** `Lines` is the rendered lines, each after its separator. */
  lemma {:induction false} LinesJoined(insts: seq<Instructions.AssemblyInstruction>, layouts: seq<Layout>,
                                       separators: seq<string>, lines: seq<string>)
    requires AllFit(layouts, insts) && |separators| == |insts| && Gaps(separators) && |lines| == |insts|
    requires forall k :: 0 <= k < |insts| ==> Render(insts[k], layouts[k]) == lines[k]
    ensures Lines(insts, layouts, separators) == Joined(lines, separators)
  {
    if insts != [] {
      AllFitTail(layouts, insts);
      assert Gaps(separators[1..]) by {
        assert forall k :: 0 <= k < |insts| - 1 ==> separators[1..][k] == separators[k + 1];
      }
      assert forall k :: 0 <= k < |insts| - 1 ==> insts[1..][k] == insts[k + 1] && layouts[1..][k] == layouts[k + 1] && lines[1..][k] == lines[k + 1];
      LinesJoined(insts[1..], layouts[1..], separators[1..], lines[1..]);
    }
  }

  lemma FiveJoined(ls: seq<string>, n: string)
    requires |ls| == 5
    ensures Joined(ls, [n, n, n, n, n]) == n + ls[0] + (n + ls[1] + (n + ls[2] + (n + ls[3] + (n + ls[4] + ""))))
  {
    var ns := [n, n, n, n, n];
    assert Joined(ls[4..], ns[4..]) == n + ls[4] + "" by {
      assert ls[4..][1..] == [] && ns[4..][1..] == [];
    }
    assert Joined(ls[3..], ns[3..]) == n + ls[3] + Joined(ls[4..], ns[4..]) by {
      assert ls[3..][1..] == ls[4..] && ns[3..][1..] == ns[4..];
    }
    assert Joined(ls[2..], ns[2..]) == n + ls[2] + Joined(ls[3..], ns[3..]) by {
      assert ls[2..][1..] == ls[3..] && ns[2..][1..] == ns[3..];
    }
    assert Joined(ls[1..], ns[1..]) == n + ls[1] + Joined(ls[2..], ns[2..]) by {
      assert ls[1..][1..] == ls[2..] && ns[1..][1..] == ns[2..];
    }
  }

  /** The indentation is whitespace that both `multispace1` and `str::trim` take whole. */
  lemma Indentation()
    ensures Gap(INDENT) && Blank(INDENT) && Blank(" ")
  {
    assert Gap(INDENT);
  }

  /** Six lines, each but the first after `n`, with `a` before them and `t` after them. */
  lemma Regroup(input: string, rendered: string, a: string, ls: seq<string>, n: string, t: string)
    requires |ls| == 6
    requires input == a + ls[0] + n + ls[1] + n + ls[2] + n + ls[3] + n + ls[4] + n + ls[5] + t
    requires rendered == ls[0] + (n + ls[1] + (n + ls[2] + (n + ls[3] + (n + ls[4] + (n + ls[5] + "")))))
    ensures input == a + rendered + t
  {
  }

  /** A program renders as its first line followed by the others, each after its separator. */
  lemma ProgramJoined(insts: seq<Instructions.AssemblyInstruction>, layouts: seq<Layout>, separators: seq<string>, ls: seq<string>)
    requires |insts| >= 1 && AllFit(layouts, insts) && |separators| == |insts| - 1 && Gaps(separators) && |ls| == |insts|
    requires forall k :: 0 <= k < |insts| ==> Render(insts[k], layouts[k]) == ls[k]
    ensures RenderProgram(insts, layouts, separators) == ls[0] + Joined(ls[1..], separators)
  {
    AllFitTail(layouts, insts);
    assert RenderProgram(insts, layouts, separators) == Render(insts[0], layouts[0]) + Lines(insts[1..], layouts[1..], separators);
    assert Render(insts[0], layouts[0]) == ls[0];
    TailJoined(insts, layouts, separators, ls);
  }

  /** The instructions after the first render as the lines after the first, joined. */
  lemma TailJoined(insts: seq<Instructions.AssemblyInstruction>, layouts: seq<Layout>, separators: seq<string>, ls: seq<string>)
    requires |insts| >= 1 && AllFit(layouts, insts) && |separators| == |insts| - 1 && Gaps(separators) && |ls| == |insts|
    requires forall k :: 0 <= k < |insts| ==> Render(insts[k], layouts[k]) == ls[k]
    ensures AllFit(layouts[1..], insts[1..])
    ensures Lines(insts[1..], layouts[1..], separators) == Joined(ls[1..], separators)
  {
    AllFitTail(layouts, insts);
    var tail, ys, xs := insts[1..], layouts[1..], ls[1..];
    forall k | 0 <= k < |tail|
      ensures Render(tail[k], ys[k]) == xs[k]
    {
      assert tail[k] == insts[k + 1] && ys[k] == layouts[k + 1] && xs[k] == ls[k + 1];
    }
    LinesJoined(tail, ys, separators, xs);
  }

  /** Six instructions, each but the first after the separator `n`, render as their lines so joined. */
  lemma SixLinesRendered(insts: seq<Instructions.AssemblyInstruction>, layouts: seq<Layout>, ls: seq<string>, n: string)
    requires |insts| == 6 && |layouts| == 6 && |ls| == 6 && Gap(n)
    requires forall k :: 0 <= k < 6 ==> Fits(layouts[k], insts[k]) && Render(insts[k], layouts[k]) == ls[k]
    ensures AllFit(layouts, insts) && Gaps([n, n, n, n, n])
    ensures RenderProgram(insts, layouts, [n, n, n, n, n])
      == ls[0] + (n + ls[1] + (n + ls[2] + (n + ls[3] + (n + ls[4] + (n + ls[5] + "")))))
  {
    SixFit(insts, layouts, ls, n);
    ProgramJoined(insts, layouts, [n, n, n, n, n], ls);
    FiveJoined(ls[1..], n);
  }

  /** Six fitting layouts, and five copies of a separator that is whitespace. */
  lemma SixFit(insts: seq<Instructions.AssemblyInstruction>, layouts: seq<Layout>, ls: seq<string>, n: string)
    requires |insts| == 6 && |layouts| == 6 && |ls| == 6 && Gap(n)
    requires forall k :: 0 <= k < 6 ==> Fits(layouts[k], insts[k]) && Render(insts[k], layouts[k]) == ls[k]
    ensures AllFit(layouts, insts) && Gaps([n, n, n, n, n])
  {
  }

  /**
   * A program of six instructions, each printed on a line of its own after
   * the separator `n`, with blank text around it, reads back whole.
   */
  lemma SixLinesParse(input: string, insts: seq<Instructions.AssemblyInstruction>, layouts: seq<Layout>, ls: seq<string>,
                      n: string, lead: string, trail: string)
    requires |insts| == 6 && |layouts| == 6 && |ls| == 6 && Gap(n) && Blank(lead) && Blank(trail)
    requires forall k :: 0 <= k < 6 ==> Fits(layouts[k], insts[k]) && Render(insts[k], layouts[k]) == ls[k]
    requires input == lead + ls[0] + n + ls[1] + n + ls[2] + n + ls[3] + n + ls[4] + n + ls[5] + trail
    ensures ParseProgram(input) == Ok("", Programs.Program(insts))
  {
    SixLinesRendered(insts, layouts, ls, n);
    Regroup(input, RenderProgram(insts, layouts, [n, n, n, n, n]), lead, ls, n, trail);
    ProgramParses(insts, layouts, [n, n, n, n, n], lead, trail);
  }

  /** The program text of `test_parse_program`, split at its first character. */
  lemma ProgramPieces(input: string)
    requires input == " load $0 #100" + INDENT + "load $1 #200" + INDENT + "add $0 $1 $2" + INDENT + "jmp $9" + INDENT
                       + "EQ $0 $2" + INDENT + "hlt" + INDENT
    ensures input == " " + "load $0 #100" + INDENT + "load $1 #200" + INDENT + "add $0 $1 $2" + INDENT + "jmp $9" + INDENT
                       + "EQ $0 $2" + INDENT + "hlt" + INDENT
  {
    assert " load $0 #100" == " " + "load $0 #100";
  }

  /**
   * `test_parse_program`: the whole program is consumed and yields its six
   * instructions in order.
   */
  lemma ProgramExample(input: string)
    requires input == " load $0 #100" + INDENT + "load $1 #200" + INDENT + "add $0 $1 $2" + INDENT + "jmp $9" + INDENT
                       + "EQ $0 $2" + INDENT + "hlt" + INDENT
    ensures ParseProgram(input) == Ok("", Programs.Program([
      Instruction(Opcode(Opcodes.LOAD), Some(Register(0)), Some(IntegerOperand(100)), None),
      Instruction(Opcode(Opcodes.LOAD), Some(Register(1)), Some(IntegerOperand(200)), None),
      Instruction(Opcode(Opcodes.ADD), Some(Register(0)), Some(Register(1)), Some(Register(2))),
      Instruction(Opcode(Opcodes.JMP), Some(Register(9)), None, None),
      Instruction(Opcode(Opcodes.EQ), Some(Register(0)), Some(Register(2)), None),
      Instruction(Opcode(Opcodes.HLT), None, None, None)]))
  {
    var insts := [
      Instruction(Opcode(Opcodes.LOAD), Some(Register(0)), Some(IntegerOperand(100)), None),
      Instruction(Opcode(Opcodes.LOAD), Some(Register(1)), Some(IntegerOperand(200)), None),
      Instruction(Opcode(Opcodes.ADD), Some(Register(0)), Some(Register(1)), Some(Register(2))),
      Instruction(Opcode(Opcodes.JMP), Some(Register(9)), None, None),
      Instruction(Opcode(Opcodes.EQ), Some(Register(0)), Some(Register(2)), None),
      Instruction(Opcode(Opcodes.HLT), None, None, None)];
    var layouts := [Layout("load", [" ", " "]), Layout("load", [" ", " "]), Layout("add", [" ", " ", " "]),
                    Layout("jmp", [" "]), Layout("EQ", [" ", " "]), Layout("hlt", [])];
    var ls := ["load $0 #100", "load $1 #200", "add $0 $1 $2", "jmp $9", "EQ $0 $2", "hlt"];
    forall k | 0 <= k < 6
      ensures Fits(layouts[k], insts[k]) && Render(insts[k], layouts[k]) == ls[k]
    {
      if k == 0 {
        Line0();
      } else if k == 1 {
        Line1();
      } else if k == 2 {
        Line2();
      } else if k == 3 {
        Line3();
      } else if k == 4 {
        Line4();
      } else {
        Line5();
      }
    }
    Indentation();
    ProgramPieces(input);
    SixLinesParse(input, insts, layouts, ls, INDENT, " ", INDENT);
  }
}
