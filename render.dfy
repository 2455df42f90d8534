/**
 * Assembly text written back from parsed instructions, and the round trip
 * of the parser of src/assembler/parsers.rs: `parse_instruction` and
 * `parse_program` read back exactly what is written here.
 */
module Rendering {
  import opened Base
  import opened Text
  import opened Tokens
  import Opcodes
  import Instructions
  import Programs
  import opened Parsers

  /** An operand the parser can read back: a register, or a number without a sign. */
  predicate Printable(t: Token) {
    t.Register? || (t.IntegerOperand? && t.value >= 0)
  }

  /** `$` or `#` followed by the shortest decimal spelling of the value. */
  function OperandText(t: Token): (s: string)
    requires Printable(t)
    ensures |s| >= 2 && s[0] == (if t.Register? then '$' else '#') && IsDigit(s[|s| - 1])
  {
    if t.Register? then "$" + DecimalString(t.index) else "#" + DecimalString(t.value as nat)
  }

  function KindOf(t: Token): OperandKind {
    if t.Register? then RegisterOperand else NumberOperand
  }

  function KindsOf(ts: seq<Token>): (ks: seq<OperandKind>)
    ensures |ks| == |ts| && forall i :: 0 <= i < |ts| ==> ks[i] == KindOf(ts[i])
  {
    seq(|ts|, i requires 0 <= i < |ts| => KindOf(ts[i]))
  }

  predicate AllPrintable(ts: seq<Token>) {
    forall i :: 0 <= i < |ts| ==> Printable(ts[i])
  }

  /** Whitespace that nom's `multispace1` consumes whole: spaces, tabs, carriage returns and line feeds, at least one. */
  predicate Gap(g: string) {
    g != [] && forall i :: 0 <= i < |g| ==> IsMultispace(g[i])
  }

  predicate Gaps(gs: seq<string>) {
    forall i :: 0 <= i < |gs| ==> Gap(gs[i])
  }

  /** Text that `str::trim` removes entirely. */
  predicate Blank(s: string) {
    forall i :: 0 <= i < |s| ==> IsWhitespace(s[i])
  }

  /** Each operand after its gap. */
  function OperandsText(ts: seq<Token>, gaps: seq<string>): (s: string)
    requires AllPrintable(ts) && |gaps| == |ts| && Gaps(gaps)
    ensures ts == [] <==> s == []
    ensures ts != [] ==> |s| >= 3 && IsMultispace(s[0]) && IsDigit(s[|s| - 1])
  {
    if ts == [] then "" else gaps[0] + OperandText(ts[0]) + OperandsText(ts[1..], gaps[1..])
  }

  /** The operands an instruction holds, in order. */
  function Present(inst: Instructions.AssemblyInstruction): (ts: seq<Token>)
    ensures |ts| <= 3
  {
    (if inst.operand1.Some? then [inst.operand1.value] else []) +
    (if inst.operand2.Some? then [inst.operand2.value] else []) +
    (if inst.operand3.Some? then [inst.operand3.value] else [])
  }

  /** An instruction of one of the five forms whose number, if any, has no sign. */
  predicate PrintableInstruction(inst: Instructions.AssemblyInstruction) {
    WellFormed(inst) && AllPrintable(Present(inst))
  }

  /**
   * How an instruction is laid out in text: the mnemonic spelled in any mix
   * of letter cases, and the whitespace before each operand.
   */
  datatype Layout = Layout(word: string, gaps: seq<string>)

  predicate Fits(layout: Layout, inst: Instructions.AssemblyInstruction) {
    && PrintableInstruction(inst)
    && Opcodes.UpperCase(layout.word) == Opcodes.Mnemonic(inst.opcode.value.op)
    && |layout.gaps| == |Present(inst)| && Gaps(layout.gaps)
  }

  /** The mnemonic in capitals and a single space before each operand. */
  function Canonical(inst: Instructions.AssemblyInstruction): (layout: Layout)
    requires PrintableInstruction(inst)
    ensures Fits(layout, inst)
  {
    var m := Opcodes.Mnemonic(inst.opcode.value.op);
    assert Opcodes.UpperCase(m) == m;
    Layout(m, seq(|Present(inst)|, _ => " "))
  }

  /** The instruction as its layout spells it: the mnemonic, then each operand after its gap. */
  function Render(inst: Instructions.AssemblyInstruction, layout: Layout): (s: string)
    requires Fits(layout, inst)
    ensures |s| >= 2 && IsAlpha(s[0]) && !IsWhitespace(s[|s| - 1])
  {
    SpellingLetters(layout.word, inst.opcode.value.op);
    var s := layout.word + OperandsText(Present(inst), layout.gaps);
    ClassesAndWhitespace(s[|s| - 1]);
    s
  }

  predicate AllFit(layouts: seq<Layout>, insts: seq<Instructions.AssemblyInstruction>) {
    |layouts| == |insts| && forall i :: 0 <= i < |insts| ==> Fits(layouts[i], insts[i])
  }

  /** Each instruction after its separator, which may be any whitespace that `multispace1` consumes. */
  function Lines(insts: seq<Instructions.AssemblyInstruction>, layouts: seq<Layout>, separators: seq<string>): (s: string)
    requires AllFit(layouts, insts) && |separators| == |insts| && Gaps(separators)
    ensures Follows(s)
  {
    if insts == [] then ""
    else
      var line := Render(insts[0], layouts[0]);
      AllFitTail(layouts, insts);
      var rest := Lines(insts[1..], layouts[1..], separators[1..]);
      LineFollows(separators[0], line, rest);
      separators[0] + line + rest
  }

  /** A program text: its first instruction, then each further one after its separator. */
  function RenderProgram(insts: seq<Instructions.AssemblyInstruction>, layouts: seq<Layout>, separators: seq<string>): (s: string)
    requires |insts| >= 1 && AllFit(layouts, insts) && |separators| == |insts| - 1 && Gaps(separators)
    ensures |s| >= 2 && IsAlpha(s[0])
  {
    var first := Render(insts[0], layouts[0]);
    AllFitTail(layouts, insts);
    var rest := Lines(insts[1..], layouts[1..], separators);
    first + rest
  }

  lemma AllFitTail(layouts: seq<Layout>, insts: seq<Instructions.AssemblyInstruction>)
    requires AllFit(layouts, insts) && insts != []
    ensures Fits(layouts[0], insts[0]) && AllFit(layouts[1..], insts[1..])
  {
    assert forall i :: 0 <= i < |insts| - 1 ==> layouts[1..][i] == layouts[i + 1] && insts[1..][i] == insts[i + 1];
  }

  /** A separator and an instruction may follow an instruction. */
  lemma LineFollows(separator: string, line: string, rest: string)
    requires Gap(separator)
    requires |line| >= 2 && IsAlpha(line[0]) && !IsWhitespace(line[|line| - 1]) && Follows(rest)
    ensures Follows(separator + line + rest)
  {
    var s := separator + line + rest;
    ClassesAndWhitespace(line[0]);
    assert s == separator + (line + rest);
    RunLengthConcat(separator, line + rest, Multispace);
    assert s[|separator|] == line[0];
    assert s[|s| - 1] == if rest == [] then line[|line| - 1] else rest[|rest| - 1];
  }

  /** An instruction and what may follow it have no whitespace to trim. */
  lemma TextTrimmed(first: string, rest: string)
    requires |first| >= 2 && IsAlpha(first[0]) && !IsWhitespace(first[|first| - 1]) && Follows(rest)
    ensures var s := first + rest; !IsWhitespace(s[0]) && !IsWhitespace(s[|s| - 1]) && Trim(s) == s
  {
    var s := first + rest;
    ClassesAndWhitespace(first[0]);
    assert s[0] == first[0];
    assert s[|s| - 1] == if rest == [] then first[|first| - 1] else rest[|rest| - 1];
    TrimUnchanged(s);
  }

  /** What may follow an instruction: nothing, or whitespace `multispace1` consumes and then the next mnemonic. */
  predicate Follows(tail: string) {
    tail == [] ||
      (var n := RunLength(tail, Multispace);
        0 < n < |tail| && IsAlpha(tail[n]) && !IsWhitespace(tail[|tail| - 1]))
  }

  /** What may follow a printed token: nothing, or whitespace that does not end the text. */
  predicate Separated(tail: string) {
    tail == [] || (IsMultispace(tail[0]) && !IsWhitespace(tail[|tail| - 1]))
  }

  /** `a` is a prefix of `b`. */
  predicate IsPrefix(a: seq<OperandKind>, b: seq<OperandKind>) {
    |a| <= |b| && a == b[..|a|]
  }

  // ---------------------------------------------------------------- tokens

  /** `multispace1` consumes a whole gap. */
  lemma SkipGap(g: string, t: string)
    requires Gap(g) && (t == [] || !IsMultispace(t[0]))
    ensures SkipSpace(g + t) == Ok(t, t)
  {
    RunLengthConcat(g, t, Multispace);
    SplitAt(g, t);
  }

  /** A printed register reads back as itself, and the parser stops where its digits end. */
  lemma RegisterTextParses(t: Token, tail: string)
    requires t.Register? && Separated(tail)
    ensures ParseRegister(OperandText(t) + tail) == Ok(tail, t)
  {
    DecimalRoundTrip(t.index);
    RegisterDigits(DecimalString(t.index), tail);
  }

  /** A printed number reads back as itself, and the parser stops where its digits end. */
  lemma NumberTextParses(t: Token, tail: string)
    requires t.IntegerOperand? && t.value >= 0 && Separated(tail)
    ensures ParseNumber(OperandText(t) + tail) == Ok(tail, t)
  {
    DecimalRoundTrip(t.value as nat);
    NumberDigits(DecimalString(t.value as nat), tail);
  }

  /** A printed operand reads back as itself, and the parser stops where it ends. */
  lemma OperandTextParses(t: Token, tail: string)
    requires Printable(t) && Separated(tail)
    ensures ParseOperandOf(KindOf(t), OperandText(t) + tail) == Ok(tail, t)
  {
    if t.Register? {
      RegisterTextParses(t, tail);
    } else {
      NumberTextParses(t, tail);
    }
  }

  /** A printed operand of the other kind is a recoverable error. */
  lemma OperandTextMismatch(kind: OperandKind, t: Token, tail: string)
    requires Printable(t) && kind != KindOf(t)
    ensures ParseOperandOf(kind, OperandText(t) + tail).Error?
  {
    var s := OperandText(t) + tail;
    TrimKeepsFirst(s);
  }

  /** Text that starts with a letter is no operand. */
  lemma LetterIsNoOperand(kind: OperandKind, s: string)
    requires s != [] && IsAlpha(s[0])
    ensures ParseOperandOf(kind, s).Error?
  {
    TrimKeepsFirst(s);
  }

  /** A mnemonic spelled in any mix of letter cases reads back as its opcode. */
  lemma OpcodeParses(op: Opcodes.Opcode, word: string, rest: string)
    requires Opcodes.UpperCase(word) == Opcodes.Mnemonic(op) && Separated(rest)
    ensures ParseOpcode(word + rest) == Ok(rest, Opcode(op))
  {
    SpellingLetters(word, op);
    if rest != [] {
      ClassesAndWhitespace(rest[0]);
    }
    OpcodeWord(word, rest);
    Opcodes.SpelledAs(word, op);
  }

  // ---------------------------------------------------------------- operands

  lemma SeparatedAfter(ts: seq<Token>, gaps: seq<string>, tail: string)
    requires AllPrintable(ts) && |gaps| == |ts| && Gaps(gaps) && Separated(tail)
    ensures Separated(OperandsText(ts, gaps) + tail)
  {
    var s := OperandsText(ts, gaps);
    if ts == [] {
      assert s + tail == tail;
    } else if tail == [] {
      assert s + tail == s;
    } else {
      assert (s + tail)[0] == s[0];
      assert (s + tail)[|s + tail| - 1] == tail[|tail| - 1];
    }
  }

  /** Concatenation regrouped. */
  lemma Assoc(a: string, b: string, c: string, d: string)
    ensures a + b + c + d == a + (b + (c + d))
  {
  }

  lemma FirstAndRest(ts: seq<Token>)
    requires ts != []
    ensures [ts[0]] + ts[1..] == ts
  {
  }

  lemma KindsOfTail(ts: seq<Token>)
    requires ts != []
    ensures KindsOf(ts)[1..] == KindsOf(ts[1..])
  {
  }

  /** The first operand after its gap, then the others. */
  lemma OperandsTextCons(ts: seq<Token>, gaps: seq<string>, tail: string)
    requires AllPrintable(ts) && |gaps| == |ts| && Gaps(gaps) && ts != []
    ensures OperandsText(ts, gaps) + tail == gaps[0] + (OperandText(ts[0]) + (OperandsText(ts[1..], gaps[1..]) + tail))
  {
    Assoc(gaps[0], OperandText(ts[0]), OperandsText(ts[1..], gaps[1..]), tail);
  }

  /** One step of `Operands` over a printed operand: the gap, the operand, then the others. */
  lemma PrintedOperandStep(g: string, t: Token, after: string, kinds: seq<OperandKind>, tail: string, more: seq<Token>)
    requires Gap(g) && Printable(t) && Separated(after)
    requires kinds != [] && kinds[0] == KindOf(t)
    requires Operands(after, kinds[1..]) == Ok(tail, more)
    ensures Operands(g + (OperandText(t) + after), kinds) == Ok(tail, [t] + more)
  {
    SkipGap(g, OperandText(t) + after);
    OperandTextParses(t, after);
  }

  /** Operands printed after the opcode read back in order, each of its own kind. */
  lemma {:induction false} OperandsParse(ts: seq<Token>, gaps: seq<string>, tail: string)
    requires AllPrintable(ts) && |gaps| == |ts| && Gaps(gaps) && Separated(tail)
    ensures Operands(OperandsText(ts, gaps) + tail, KindsOf(ts)) == Ok(tail, ts)
  {
    if ts == [] {
      assert OperandsText(ts, gaps) + tail == tail;
    } else {
      var kinds := KindsOf(ts);
      var after := OperandsText(ts[1..], gaps[1..]) + tail;
      OperandsTextCons(ts, gaps, tail);
      SeparatedAfter(ts[1..], gaps[1..], tail);
      KindsOfTail(ts);
      OperandsParse(ts[1..], gaps[1..], tail);
      PrintedOperandStep(gaps[0], ts[0], after, kinds, tail, ts[1..]);
      FirstAndRest(ts);
    }
  }

  lemma PrefixCons(kinds: seq<OperandKind>, ks: seq<OperandKind>)
    requires kinds != [] && ks != [] && kinds[0] == ks[0] && IsPrefix(kinds[1..], ks[1..])
    ensures IsPrefix(kinds, ks)
  {
    assert kinds == [kinds[0]] + kinds[1..];
    assert ks[..|kinds|] == [ks[0]] + ks[1..][..|kinds| - 1];
  }

  /** What may follow an instruction is its whitespace and then a letter. */
  lemma FollowsSplit(tail: string)
    requires Follows(tail) && tail != []
    ensures var n := RunLength(tail, Multispace);
      Gap(tail[..n]) && tail == tail[..n] + tail[n..] && IsAlpha(tail[n..][0])
  {
    RunLengthSpec(tail, Multispace);
  }

  /** Past the last printed operand, another operand is a recoverable error. */
  lemma NoOperandFollows(kinds: seq<OperandKind>, tail: string)
    requires kinds != [] && Follows(tail)
    ensures Operands(tail, kinds).Error?
  {
    if tail != [] {
      var n := RunLength(tail, Multispace);
      var next := tail[n..];
      FollowsSplit(tail);
      ClassesAndWhitespace(next[0]);
      SkipGap(tail[..n], next);
      LetterIsNoOperand(kinds[0], next);
    }
  }

  lemma {:induction false} OperandsMismatch(ts: seq<Token>, gaps: seq<string>, kinds: seq<OperandKind>, tail: string)
    requires AllPrintable(ts) && |gaps| == |ts| && Gaps(gaps) && Follows(tail) && !IsPrefix(kinds, KindsOf(ts))
    ensures Operands(OperandsText(ts, gaps) + tail, kinds).Error?
  {
    assert IsPrefix([], KindsOf(ts));
    var input := OperandsText(ts, gaps) + tail;
    if ts == [] {
      assert input == tail;
      NoOperandFollows(kinds, tail);
    } else {
      var first := OperandText(ts[0]);
      var after := OperandsText(ts[1..], gaps[1..]) + tail;
      OperandsTextCons(ts, gaps, tail);
      SkipGap(gaps[0], first + after);
      assert SkipSpace(input) == Ok(first + after, first + after);
      if kinds[0] != KindOf(ts[0]) {
        OperandTextMismatch(kinds[0], ts[0], after);
        assert ParseOperandOf(kinds[0], first + after).Error?;
      } else {
        assert Separated(after) by {
          if tail != [] {
            FollowsSplit(tail);
            ClassesAndWhitespace(tail[0]);
          }
          SeparatedAfter(ts[1..], gaps[1..], tail);
        }
        OperandTextParses(ts[0], after);
        assert ParseOperandOf(kinds[0], first + after) == Ok(after, ts[0]);
        KindsOfTail(ts);
        if IsPrefix(kinds[1..], KindsOf(ts[1..])) {
          PrefixCons(kinds, KindsOf(ts));
        }
        OperandsMismatch(ts[1..], gaps[1..], kinds[1..], tail);
        assert Operands(after, kinds[1..]).Error?;
      }
    }
  }

  /** Whatever may follow an instruction may follow a printed token. */
  lemma FollowsSeparated(tail: string)
    requires Follows(tail)
    ensures Separated(tail)
  {
    if tail != [] {
      FollowsSplit(tail);
      ClassesAndWhitespace(tail[0]);
    }
  }

  // ---------------------------------------------------------------- instructions

  /** The five forms, by the kinds of their operands. */
  lemma FormOf(inst: Instructions.AssemblyInstruction)
    requires WellFormed(inst)
    ensures var k := KindsOf(Present(inst));
      || k == [RegisterOperand, NumberOperand]
      || k == [RegisterOperand, RegisterOperand, RegisterOperand]
      || k == [RegisterOperand, RegisterOperand]
      || k == [RegisterOperand]
      || k == []
  {
    var ts := Present(inst);
    var k := KindsOf(ts);
    if inst.operand1.None? {
      assert ts == [];
    } else if inst.operand2.None? {
      assert ts == [inst.operand1.value];
    } else if inst.operand3.None? {
      assert ts == [inst.operand1.value, inst.operand2.value];
    } else {
      assert ts == [inst.operand1.value, inst.operand2.value, inst.operand3.value];
    }
  }

  /** Filling the operand fields from the left with the present operands gives the instruction back. */
  lemma Refill(inst: Instructions.AssemblyInstruction)
    requires WellFormed(inst)
    ensures Filled(inst.opcode.value, Present(inst)) == inst
  {
    var ts := Present(inst);
    if inst.operand1.None? {
      assert ts == [];
    } else if inst.operand2.None? {
      assert ts == [inst.operand1.value];
    } else if inst.operand3.None? {
      assert ts == [inst.operand1.value, inst.operand2.value];
    } else {
      assert ts == [inst.operand1.value, inst.operand2.value, inst.operand3.value];
    }
  }

  /** The spelling of the mnemonic, then the operands. */
  lemma RenderCons(inst: Instructions.AssemblyInstruction, layout: Layout, tail: string)
    requires Fits(layout, inst)
    ensures Render(inst, layout) + tail == layout.word + (OperandsText(Present(inst), layout.gaps) + tail)
  {
  }

  /** One instruction form: the opcode, then the operands of the form. */
  lemma FormStep(input: string, kinds: seq<OperandKind>, opcode: Token, rest: string, tail: string, ts: seq<Token>)
    requires |kinds| <= 3
    requires ParseOpcode(Trim(input)) == Ok(rest, opcode)
    requires Operands(rest, kinds) == Ok(tail, ts)
    ensures ParseForm(input, kinds) == Ok(tail, Filled(opcode, ts))
  {
  }

  /** A form whose operands do not parse does not parse. */
  lemma FormStepError(input: string, kinds: seq<OperandKind>, opcode: Token, rest: string)
    requires |kinds| <= 3
    requires ParseOpcode(Trim(input)) == Ok(rest, opcode)
    requires Operands(rest, kinds).Error?
    ensures ParseForm(input, kinds).Error?
  {
  }

  /** The form of a printed instruction reads it back. */
  lemma FormParses(input: string, inst: Instructions.AssemblyInstruction, layout: Layout, tail: string)
    requires Fits(layout, inst) && Follows(tail) && Trim(input) == Render(inst, layout) + tail
    ensures ParseForm(input, KindsOf(Present(inst))) == Ok(tail, inst)
  {
    var op := inst.opcode.value.op;
    var ts := Present(inst);
    var rest := OperandsText(ts, layout.gaps) + tail;
    RenderCons(inst, layout, tail);
    FollowsSeparated(tail);
    SeparatedAfter(ts, layout.gaps, tail);
    OpcodeParses(op, layout.word, rest);
    OperandsParse(ts, layout.gaps, tail);
    FormStep(input, KindsOf(ts), Opcode(op), rest, tail, ts);
    Refill(inst);
  }

  /** A form whose kinds are not a prefix of the printed ones gives a recoverable error. */
  lemma FormMismatch(input: string, inst: Instructions.AssemblyInstruction, layout: Layout, tail: string, kinds: seq<OperandKind>)
    requires Fits(layout, inst) && Follows(tail) && Trim(input) == Render(inst, layout) + tail
    requires |kinds| <= 3 && !IsPrefix(kinds, KindsOf(Present(inst)))
    ensures ParseForm(input, kinds).Error?
  {
    var op := inst.opcode.value.op;
    var ts := Present(inst);
    var rest := OperandsText(ts, layout.gaps) + tail;
    RenderCons(inst, layout, tail);
    FollowsSeparated(tail);
    SeparatedAfter(ts, layout.gaps, tail);
    OpcodeParses(op, layout.word, rest);
    OperandsMismatch(ts, layout.gaps, kinds, tail);
    FormStepError(input, kinds, Opcode(op), rest);
  }

  /**
   * `parse_instruction` reads a printed instruction back: each form tried
   * before the right one fails with a recoverable error, because its
   * operand kinds are not a prefix of the printed ones.
   */
  lemma InstructionParses(input: string, inst: Instructions.AssemblyInstruction, layout: Layout, tail: string)
    requires Fits(layout, inst) && Follows(tail) && Trim(input) == Render(inst, layout) + tail
    ensures ParseInstruction(input) == Ok(tail, inst)
  {
    var k := KindsOf(Present(inst));
    var r, n := RegisterOperand, NumberOperand;
    FormOf(inst);
    assert ParseForm(input, k) == Ok(tail, inst) by { FormParses(input, inst, layout, tail); }
    if k != [r, n] {
      assert !IsPrefix([r, n], k) by { NotRegisterNumber(k); }
      assert ParseInstruction1(input).Error? by { FormMismatch(input, inst, layout, tail, [r, n]); }
      if k != [r, r, r] {
        assert ParseInstruction2(input).Error? by { FormMismatch(input, inst, layout, tail, [r, r, r]); }
        if k != [r, r] {
          assert ParseInstruction3(input).Error? by { FormMismatch(input, inst, layout, tail, [r, r]); }
          if k != [r] {
            assert ParseInstruction4(input).Error? by { FormMismatch(input, inst, layout, tail, [r]); }
          }
        }
      }
    }
  }

  /**
   * An instruction alone on its text, with any whitespace around it, reads
   * back whole, both through the form of its operands and through
   * `parse_instruction`.
   */
  lemma InstructionReadBack(inst: Instructions.AssemblyInstruction, layout: Layout, lead: string, trail: string)
    requires Fits(layout, inst) && Blank(lead) && Blank(trail)
    ensures var input := lead + Render(inst, layout) + trail;
      && ParseForm(input, KindsOf(Present(inst))) == Ok("", inst)
      && ParseInstruction(input) == Ok("", inst)
  {
    var line := Render(inst, layout);
    var input := lead + line + trail;
    assert line + "" == line;
    TrimToText(input, line, "", lead, trail);
    FormParses(input, inst, layout, "");
    InstructionParses(input, inst, layout, "");
  }

  /** Only the form ($r #n) itself starts with a register and then a number. */
  lemma NotRegisterNumber(k: seq<OperandKind>)
    requires k in {[RegisterOperand, RegisterOperand, RegisterOperand], [RegisterOperand, RegisterOperand], [RegisterOperand], []}
    ensures !IsPrefix([RegisterOperand, NumberOperand], k)
  {
    if |k| >= 2 {
      assert k[..2][1] == RegisterOperand;
    }
  }

  /** One turn of the loop of `many1`: an instruction that consumed text, then the rest of the loop. */
  lemma ManyStep(input: string, acc: seq<Instructions.AssemblyInstruction>, rest: string,
                 inst: Instructions.AssemblyInstruction, r: ParseResult<seq<Instructions.AssemblyInstruction>>)
    requires ParseInstruction(input) == Ok(rest, inst) && |rest| < |input|
    requires Many(rest, acc + [inst]) == r
    ensures Many(input, acc) == r
  {
  }

  lemma AppendFirst(acc: seq<Instructions.AssemblyInstruction>, xs: seq<Instructions.AssemblyInstruction>)
    requires xs != []
    ensures acc + [xs[0]] + xs[1..] == acc + xs
  {
  }

  // ---------------------------------------------------------------- programs

  /** No instruction parses from the end of the text. */
  lemma NothingAtTheEnd()
    ensures ParseInstruction("").Error?
  {
  }

  /** The loop of `many1` reads every printed line back and stops at the end of the text. */
  lemma {:induction false} LinesParse(insts: seq<Instructions.AssemblyInstruction>, layouts: seq<Layout>,
                                      separators: seq<string>, acc: seq<Instructions.AssemblyInstruction>)
    requires AllFit(layouts, insts) && |separators| == |insts| && Gaps(separators)
    ensures Many(Lines(insts, layouts, separators), acc) == Ok("", acc + insts)
    decreases |insts|
  {
    if insts == [] {
      NothingAtTheEnd();
      assert acc + insts == acc;
    } else {
      var text := Lines(insts, layouts, separators);
      var line := Render(insts[0], layouts[0]);
      var rest := Lines(insts[1..], layouts[1..], separators[1..]);
      LineTrimmed(separators[0], line, rest);
      InstructionParses(text, insts[0], layouts[0], rest);
      LinesParse(insts[1..], layouts[1..], separators[1..], acc + [insts[0]]);
      AppendFirst(acc, insts);
      ManyStep(text, acc, rest, insts[0], Ok("", acc + insts));
    }
  }

  /** Whitespace that `multispace1` consumes is whitespace that `str::trim` removes. */
  lemma GapIsBlank(g: string)
    requires Gap(g)
    ensures Blank(g)
  {
    forall i | 0 <= i < |g|
      ensures IsWhitespace(g[i])
    {
      ClassesAndWhitespace(g[i]);
    }
  }

  /** A printed line trims to the instruction and what follows it. */
  lemma LineTrimmed(separator: string, line: string, rest: string)
    requires Gap(separator)
    requires |line| >= 2 && IsAlpha(line[0]) && !IsWhitespace(line[|line| - 1]) && Follows(rest)
    ensures Trim(separator + line + rest) == line + rest
  {
    TextTrimmed(line, rest);
    GapIsBlank(separator);
    var none := "";
    assert separator + line + rest == separator + (line + rest) + none;
    assert (line + rest)[|line + rest| - 1] == if rest == [] then line[|line| - 1] else rest[|rest| - 1];
    ClassesAndWhitespace(line[0]);
    TrimAround(separator, line + rest, none);
  }

  /**
   * `parse_program` reads a printed program back, consuming all of it,
   * whatever whitespace comes before the first instruction and after the
   * last.
   */
  lemma ProgramParses(insts: seq<Instructions.AssemblyInstruction>, layouts: seq<Layout>, separators: seq<string>,
                      lead: string, trail: string)
    requires |insts| >= 1 && AllFit(layouts, insts) && |separators| == |insts| - 1 && Gaps(separators)
    requires Blank(lead) && Blank(trail)
    ensures ParseProgram(lead + RenderProgram(insts, layouts, separators) + trail) == Ok("", Programs.Program(insts))
  {
    AllFitTail(layouts, insts);
    var first := Render(insts[0], layouts[0]);
    var rest := Lines(insts[1..], layouts[1..], separators);
    var input := lead + RenderProgram(insts, layouts, separators) + trail;
    assert input == lead + (first + rest) + trail;
    FirstLineParses(input, insts[0], layouts[0], first, rest, lead, trail);
    assert Many(rest, [insts[0]]) == Ok("", insts) by {
      LinesParse(insts[1..], layouts[1..], separators, [insts[0]]);
      AppendFirst([], insts);
      assert [] + [insts[0]] == [insts[0]] && [] + insts == insts;
    }
    ProgramFrom(input, rest, insts[0], "", insts);
  }

  /** The first instruction of a program text, with whitespace around the text, reads back and leaves the other lines. */
  lemma FirstLineParses(input: string, inst: Instructions.AssemblyInstruction, layout: Layout,
                        first: string, rest: string, lead: string, trail: string)
    requires Fits(layout, inst) && first == Render(inst, layout) && Follows(rest)
    requires Blank(lead) && Blank(trail) && input == lead + (first + rest) + trail
    ensures ParseInstruction(Trim(input)) == Ok(rest, inst)
  {
    TrimToText(input, first, rest, lead, trail);
    InstructionParses(first + rest, inst, layout, rest);
  }

  /** Trimming a program text with whitespace around it leaves the instructions, which trim to themselves. */
  lemma TrimToText(input: string, first: string, rest: string, lead: string, trail: string)
    requires |first| >= 2 && IsAlpha(first[0]) && !IsWhitespace(first[|first| - 1]) && Follows(rest)
    requires Blank(lead) && Blank(trail) && input == lead + (first + rest) + trail
    ensures Trim(input) == first + rest && Trim(first + rest) == first + rest
  {
    TextTrimmed(first, rest);
    TrimAround(lead, first + rest, trail);
  }
}
