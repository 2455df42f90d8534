/**
 * The assembly-language parser of src/assembler/parsers.rs: nom
 * combinators over strings, each returning the unconsumed rest and a value,
 * a recoverable Error (the next alternative is tried), or an irrecoverable
 * Failure raised by `cut`.
 */
module Parsers {
  import opened Base
  import opened Text
  import opened Tokens
  import Opcodes
  import Instructions
  import Programs

  /**
   * The outcome of a parser. `Overflow` stands for the panic of
   * `parse().unwrap()` on a digit string too large for its integer type.
   */
  datatype ParseResult<+T> =
    | Ok(rest: string, value: T)
    | Error
    | Failure(at: string)
    | Overflow(digits: string)
  {
    predicate IsFailure() {
      !Ok?
    }

    function PropagateFailure<U>(): ParseResult<U>
      requires !Ok?
    {
      match this
      case Error => Error
      case Failure(at) => Failure(at)
      case Overflow(digits) => Overflow(digits)
    }

    /** The unconsumed rest and the value, in nom's order. */
    function Extract(): (string, T)
      requires Ok?
    {
      (rest, value)
    }
  }

  // ---------------------------------------------------------------- combinators

  /** nom's `alpha1`, `digit1`, `alphanumeric1` and `multispace1`: a non-empty maximal run of class `k`. */
  function Take1(s: string, k: CharClass): (r: ParseResult<string>)
    ensures r.Ok? || r.Error?
    ensures r.Ok? <==> RunLength(s, k) > 0
    ensures r.Ok? ==> r.rest == s[RunLength(s, k)..] && r.value == s[..RunLength(s, k)]
  {
    var n := RunLength(s, k);
    if n == 0 then Error else Ok(s[n..], s[..n])
  }

  /** nom's `tag` for a one-character tag. */
  function Tag(s: string, c: char): (r: ParseResult<char>)
    ensures r.Ok? || r.Error?
    ensures r.Ok? <==> s != [] && s[0] == c
    ensures r.Ok? ==> r.rest == s[1..]
  {
    if s != [] && s[0] == c then Ok(s[1..], c) else Error
  }

  /** nom's `cut`: a recoverable error at `at` becomes a failure. */
  function Cut<T>(r: ParseResult<T>, at: string): ParseResult<T> {
    if r.Error? then Failure(at) else r
  }

  /** nom's `opt` applied at `input`: a recoverable error becomes an absent value and consumes nothing. */
  function Opt<T>(r: ParseResult<T>, input: string): ParseResult<Option<T>> {
    match r
    case Ok(rest, v) => Ok(rest, Some(v))
    case Error => Ok(input, None)
    case Failure(at) => Failure(at)
    case Overflow(digits) => Overflow(digits)
  }

  /** nom's `alt` of two alternatives: the second is tried only after a recoverable error. */
  function Or<T>(first: ParseResult<T>, second: ParseResult<T>): ParseResult<T> {
    if first.Error? then second else first
  }

  // ---------------------------------------------------------------- tokens

  /** `parse_opcode`: trims, reads the letters, maps them as a mnemonic. */
  function ParseOpcode(input: string): (r: ParseResult<Token>)
    ensures r.Ok? || r.Error?
    ensures r.Ok? ==> |r.rest| < |Trim(input)| && r.value.Opcode?
  {
    var word :- Take1(Trim(input), Alpha);
    Ok(word.0, Opcode(Opcodes.FromMnemonic(word.1)))
  }

  /**
   * `parse_opcode` succeeds exactly on a trimmed input that starts with a
   * letter; it consumes the whole run of letters, maps that word as a
   * mnemonic (unknown words give IGL), and leaves the rest untouched.
   */
  lemma ParseOpcodeSpec(input: string)
    ensures var s := Trim(input); var n := RunLength(s, Alpha); var r := ParseOpcode(input);
      && (r.Ok? <==> s != [] && IsAlpha(s[0]))
      && (r.Ok? ==> r.rest == s[n..] && r.value == Opcode(Opcodes.FromMnemonic(s[..n])))
  {
  }

  /** `parse_register`: trims, then `$` and digits; a `$` without a digit is a failure. */
  function ParseRegister(input: string): (r: ParseResult<Token>)
    ensures r.Ok? ==> |r.rest| < |Trim(input)| && r.value.Register?
  {
    var s := Trim(input);
    var dollar :- Tag(s, '$');
    var digits :- Cut(Take1(dollar.0, Digit), dollar.0);
    var value := DecimalValue(digits.1);
    if value < 0x100 then Ok(digits.0, Register(value)) else Overflow(digits.1)
  }

  /**
   * `parse_register` gives a recoverable error exactly when the trimmed
   * input does not start with `$`, and a failure (from `cut`) exactly when
   * the `$` is not followed by a digit. Otherwise it reads the whole run of
   * digits, and a value above 255 is the panic of `parse::<u8>().unwrap()`.
   */
  lemma ParseRegisterSpec(input: string)
    ensures var s := Trim(input); var r := ParseRegister(input);
      && (r.Error? <==> s == [] || s[0] != '$')
      && (r.Failure? <==> s != [] && s[0] == '$' && RunLength(s[1..], Digit) == 0)
      && (r.Failure? ==> r.at == s[1..])
    ensures var s := Trim(input); var r := ParseRegister(input);
      s != [] && s[0] == '$' && RunLength(s[1..], Digit) > 0 ==>
        var n := RunLength(s[1..], Digit);
        var value := DecimalValue(s[1..][..n]);
        && (r.Ok? <==> value < 0x100)
        && (r.Ok? ==> r.rest == s[1..][n..] && r.value == Register(value))
        && (r.Overflow? ==> r.digits == s[1..][..n])
  {
    var s := Trim(input);
    if s != [] {
      RunLengthSpec(s[1..], Digit);
    }
  }

  /** `parse_number`: `#` and digits, with no trimming and no sign. */
  function ParseNumber(input: string): (r: ParseResult<Token>)
    ensures r.Ok? ==> |r.rest| < |input| && r.value.IntegerOperand?
  {
    var hash :- Tag(input, '#');
    var digits :- Cut(Take1(hash.0, Digit), hash.0);
    var value := DecimalValue(digits.1);
    if value <= INT32_MAX then Ok(digits.0, IntegerOperand(value)) else Overflow(digits.1)
  }

  /**
   * `parse_number` gives a recoverable error exactly when the input (not
   * trimmed) does not start with `#`, a failure when no digit follows, and
   * otherwise reads the run of digits up to the first non-digit; a value
   * above `i32::MAX` is the panic of `parse::<i32>().unwrap()`.
   */
  lemma ParseNumberSpec(input: string)
    ensures var r := ParseNumber(input);
      && (r.Error? <==> input == [] || input[0] != '#')
      && (r.Failure? <==> input != [] && input[0] == '#' && RunLength(input[1..], Digit) == 0)
      && (r.Failure? ==> r.at == input[1..])
    ensures var r := ParseNumber(input);
      input != [] && input[0] == '#' && RunLength(input[1..], Digit) > 0 ==>
        var n := RunLength(input[1..], Digit);
        var value := DecimalValue(input[1..][..n]);
        && (r.Ok? <==> value <= INT32_MAX)
        && (r.Ok? ==> r.rest == input[1..][n..] && r.value == IntegerOperand(value))
        && (r.Overflow? ==> r.digits == input[1..][..n])
  {
    if input != [] {
      RunLengthSpec(input[1..], Digit);
    }
  }

  /** `parse_operand`: trims, then a number, else a register. */
  function ParseOperand(input: string): (r: ParseResult<Token>)
    ensures r.Ok? ==> |r.rest| < |Trim(input)| && (r.value.Register? || r.value.IntegerOperand?)
  {
    var s := Trim(input);
    Or(ParseNumber(s), ParseRegister(s))
  }

  /**
   * An operand is a number when the trimmed input starts with `#` and a
   * register when it starts with `$`; anything else is a recoverable error.
   */
  lemma ParseOperandSpec(input: string)
    ensures var s := Trim(input); var r := ParseOperand(input);
      && (r.Error? <==> s == [] || (s[0] != '#' && s[0] != '$'))
      && (s != [] && s[0] == '#' ==> r == ParseNumber(s))
      && (s != [] && s[0] != '#' ==> r == ParseRegister(s))
      && (r.Ok? ==> (r.value.IntegerOperand? <==> s[0] == '#') && (r.value.Register? <==> s[0] == '$'))
  {
    var s := Trim(input);
    ParseNumberSpec(s);
    ParseRegisterSpec(s);
    TrimIdempotent(input);
  }

  /** `parse_label_declaration`: trims, then a letters-and-digits name followed by `:`. */
  function ParseLabelDeclaration(input: string): (r: ParseResult<Token>)
    ensures r.Ok? || r.Error?
    ensures r.Ok? ==> |r.rest| < |Trim(input)| && r.value.LabelDeclaration?
  {
    var s := Trim(input);
    var name :- Take1(s, Alphanumeric);
    var colon :- Tag(name.0, ':');
    Ok(colon.0, LabelDeclaration(name.1))
  }

  /** A label declaration is a non-empty letters-and-digits name directly followed by `:`. */
  lemma ParseLabelDeclarationSpec(input: string)
    ensures var s := Trim(input); var n := RunLength(s, Alphanumeric); var r := ParseLabelDeclaration(input);
      && (r.Ok? <==> 0 < n < |s| && s[n] == ':')
      && (r.Ok? ==> r.value == LabelDeclaration(s[..n]) && r.rest == s[n + 1..])
  {
  }

  /** `parse_label_usage`: trims, then `@` and a letters-and-digits name. */
  function ParseLabelUsage(input: string): (r: ParseResult<Token>)
    ensures r.Ok? || r.Error?
    ensures r.Ok? ==> |r.rest| < |Trim(input)| && r.value.LabelUsage?
  {
    var s := Trim(input);
    var at :- Tag(s, '@');
    var name :- Take1(at.0, Alphanumeric);
    Ok(name.0, LabelUsage(name.1))
  }

  /** A label usage is `@` followed by the whole run of letters and digits after it, at least one. */
  lemma ParseLabelUsageSpec(input: string)
    ensures var s := Trim(input); var r := ParseLabelUsage(input);
      && (r.Ok? <==> |s| >= 2 && s[0] == '@' && IsAlphanumeric(s[1]))
      && (r.Ok? ==>
        var n := RunLength(s[1..], Alphanumeric);
        r.value == LabelUsage(s[1..][..n]) && r.rest == s[1..][n..])
  {
  }

  /** `parse_directive_declaration`: trims, then `.` and a letters-and-digits name. */
  function ParseDirectiveDeclaration(input: string): (r: ParseResult<Token>)
    ensures r.Ok? || r.Error?
    ensures r.Ok? ==> |r.rest| < |Trim(input)| && r.value.Directive?
  {
    var s := Trim(input);
    var dot :- Tag(s, '.');
    var name :- Take1(dot.0, Alphanumeric);
    Ok(name.0, Directive(name.1))
  }

  /** A directive is `.` followed by the whole run of letters and digits after it, at least one. */
  lemma ParseDirectiveDeclarationSpec(input: string)
    ensures var s := Trim(input); var r := ParseDirectiveDeclaration(input);
      && (r.Ok? <==> |s| >= 2 && s[0] == '.' && IsAlphanumeric(s[1]))
      && (r.Ok? ==>
        var n := RunLength(s[1..], Alphanumeric);
        r.value == Directive(s[1..][..n]) && r.rest == s[1..][n..])
  {
  }

  // ---------------------------------------------------------------- instructions

  /** An instruction with an opcode and the given operands, and no label or directive. */
  function Instruction(opcode: Token, operand1: Option<Token>, operand2: Option<Token>, operand3: Option<Token>)
    : Instructions.AssemblyInstruction
  {
    Instructions.AssemblyInstruction(Some(opcode), None, None, operand1, operand2, operand3)
  }

  /** nom's `preceded(multispace1, p)`: the parser's input once the required whitespace is skipped. */
  function SkipSpace(input: string): (r: ParseResult<string>)
    ensures r.Ok? || r.Error?
    ensures r.Ok? ==> |r.rest| < |input| && r.rest == r.value
  {
    var space :- Take1(input, Multispace);
    Ok(space.0, space.0)
  }

  /** `opt(parse_operand)`, `count` times in a row. */
  function OptionalOperands(input: string, count: nat): (r: ParseResult<seq<Option<Token>>>)
    ensures r.Ok? ==> |r.rest| <= |input| && |r.value| == count
    decreases count
  {
    if count == 0 then Ok(input, [])
    else
      var operand :- Opt(ParseOperand(input), input);
      var more :- OptionalOperands(operand.0, count - 1);
      Ok(more.0, [operand.1] + more.1)
  }

  /**
   * `parse_directive_combined`: an optional label, a directive and up to
   * three optional operands. What it returns has no opcode, a label
   * declaration or none, a directive, and operands that are numbers or
   * registers, with no present operand after an absent one.
   */
  function ParseDirectiveCombined(input: string): (r: ParseResult<Instructions.AssemblyInstruction>)
    ensures r.Ok? ==> |r.rest| < |Trim(input)|
    ensures r.Ok? ==> r.value.opcode.None? && r.value.directive.Some? && r.value.directive.value.Directive?
    ensures r.Ok? ==> r.value.labelDecl.None? || r.value.labelDecl.value.LabelDeclaration?
    ensures r.Ok? ==> OperandsShape(r.value.Operands())
  {
    var s := Trim(input);
    // a label declaration only ever fails recoverably, so `opt` of it always succeeds
    var labelDecl := Opt(ParseLabelDeclaration(s), s).Extract();
    var directive :- ParseDirectiveDeclaration(labelDecl.0);
    DirectiveOperands(labelDecl.1, directive.1, directive.0)
  }

  /** The operands part of `parse_directive_combined`, after the label and the directive. */
  function DirectiveOperands(labelDecl: Option<Token>, directive: Token, input: string)
    : (r: ParseResult<Instructions.AssemblyInstruction>)
    ensures r.Ok? ==> |r.rest| <= |input|
    ensures r.Ok? ==> r.value.opcode.None? && r.value.labelDecl == labelDecl && r.value.directive == Some(directive)
    ensures r.Ok? ==> OperandsShape(r.value.Operands())
  {
    var operands :- OptionalOperands(input, 3);
    var os := operands.1;
    assert OperandsShape(os) && [os[0], os[1], os[2]] == os by {
      OptionalOperandsShape(input, 3);
    }
    Ok(operands.0, Instructions.AssemblyInstruction(None, labelDecl, Some(directive), os[0], os[1], os[2]))
  }

  predicate IsOperand(t: Option<Token>) {
    t.None? || t.value.Register? || t.value.IntegerOperand?
  }

  /** Once an operand is absent nothing was consumed, so every later one is absent too. */
  lemma {:induction false} AbsentOperandsStayAbsent(input: string, count: nat)
    requires ParseOperand(input).Error?
    ensures var r := OptionalOperands(input, count);
      r.Ok? && r.rest == input && forall i :: 0 <= i < count ==> r.value[i].None?
  {
    if count > 0 {
      AbsentOperandsStayAbsent(input, count - 1);
    }
  }

  /** Operands that are numbers or registers, with no present operand after an absent one. */
  predicate OperandsShape(os: seq<Option<Token>>) {
    && (forall i :: 0 <= i < |os| ==> IsOperand(os[i]))
    && (forall i, j :: 0 <= i < j < |os| && os[i].None? ==> os[j].None?)
  }

  lemma ShapeCons(o: Option<Token>, os: seq<Option<Token>>)
    requires IsOperand(o) && o.Some? && OperandsShape(os)
    ensures OperandsShape([o] + os)
  {
    var all := [o] + os;
    forall i | 0 < i < |all|
      ensures all[i] == os[i - 1]
    {
    }
  }

  lemma AllAbsentShape(os: seq<Option<Token>>)
    requires forall i :: 0 <= i < |os| ==> os[i].None?
    ensures OperandsShape(os)
  {
  }

  /**
   * One step of `OptionalOperands`: it goes on only after an operand that
   * parsed or a recoverable error, and after an operand the others follow it.
   */
  lemma OptionalOperandsCons(input: string, count: nat)
    requires count > 0
    ensures var p := ParseOperand(input); var r := OptionalOperands(input, count);
      r.Ok? ==> p.Ok? || p.Error?
    ensures var p := ParseOperand(input); var r := OptionalOperands(input, count);
      p.Ok? && r.Ok? ==>
        var more := OptionalOperands(p.rest, count - 1);
        more.Ok? && r == Ok(more.rest, [Some(p.value)] + more.value)
  {
  }

  /**
   * The optional operands are numbers or registers, and no present operand
   * follows an absent one.
   */
  lemma {:induction false} OptionalOperandsShape(input: string, count: nat)
    ensures var r := OptionalOperands(input, count); r.Ok? ==> OperandsShape(r.value)
    decreases count, 1
  {
    var r := OptionalOperands(input, count);
    if count > 0 && r.Ok? {
      OptionalOperandsCons(input, count);
      if ParseOperand(input).Error? {
        AbsentOperandsStayAbsent(input, count);
        AllAbsentShape(r.value);
      } else {
        PresentOperandShape(input, count);
      }
    }
  }

  /** The case of `OptionalOperandsShape` where the first operand is present. */
  lemma {:induction false} PresentOperandShape(input: string, count: nat)
    requires count > 0 && ParseOperand(input).Ok?
    ensures var r := OptionalOperands(input, count); r.Ok? ==> OperandsShape(r.value)
    decreases count, 0
  {
    var first := ParseOperand(input);
    var more := OptionalOperands(first.rest, count - 1);
    OptionalOperandsCons(input, count);
    if more.Ok? {
      var os := more.value;
      assert OperandsShape(os) by {
        OptionalOperandsShape(first.rest, count - 1);
      }
      ShapeCons(Some(first.value), os);
    }
  }

  /** The operand kinds of the instruction forms. */
  datatype OperandKind = RegisterOperand | NumberOperand

  predicate OfKind(t: Token, kind: OperandKind) {
    if kind.RegisterOperand? then t.Register? else t.IntegerOperand?
  }

  /** `parse_register` or `parse_number`, as the kind says. */
  function ParseOperandOf(kind: OperandKind, input: string): (r: ParseResult<Token>)
    ensures r.Ok? ==> |r.rest| < |input| && OfKind(r.value, kind)
  {
    match kind
    case RegisterOperand => ParseRegister(input)
    case NumberOperand => ParseNumber(input)
  }

  /** nom's `tuple` of `preceded(multispace1, p)` parsers, one per kind, in order. */
  function Operands(input: string, kinds: seq<OperandKind>): (r: ParseResult<seq<Token>>)
    ensures r.Ok? ==> |r.rest| < |input| || (kinds == [] && r.rest == input)
    ensures r.Ok? ==> |r.value| == |kinds|
    decreases |kinds|
  {
    if kinds == [] then Ok(input, [])
    else
      var space :- SkipSpace(input);
      var operand :- ParseOperandOf(kinds[0], space.0);
      var more :- Operands(operand.0, kinds[1..]);
      Ok(more.0, [operand.1] + more.1)
  }

  /** One step of `Operands`: whitespace, an operand of the first kind, then the others. */
  lemma OperandsCons(input: string, kinds: seq<OperandKind>)
    requires kinds != []
    ensures var r := Operands(input, kinds); var space := SkipSpace(input);
      r.Ok? ==>
        && space.Ok?
        && var operand := ParseOperandOf(kinds[0], space.rest);
        && operand.Ok?
        && var more := Operands(operand.rest, kinds[1..]);
        && more.Ok?
        && r == Ok(more.rest, [operand.value] + more.value)
  {
  }

  lemma KindsCons(t: Token, ts: seq<Token>, kinds: seq<OperandKind>)
    requires kinds != [] && |ts| == |kinds| - 1 && OfKind(t, kinds[0])
    requires forall i :: 0 <= i < |ts| ==> OfKind(ts[i], kinds[1..][i])
    ensures forall i :: 0 <= i < |kinds| ==> OfKind(([t] + ts)[i], kinds[i])
  {
    forall i | 0 < i < |kinds|
      ensures OfKind(([t] + ts)[i], kinds[i])
    {
      assert ([t] + ts)[i] == ts[i - 1] && kinds[i] == kinds[1..][i - 1];
    }
  }

  /** Each operand has the kind asked for. */
  lemma {:induction false} OperandsKinds(input: string, kinds: seq<OperandKind>)
    ensures var r := Operands(input, kinds);
      r.Ok? ==> forall i :: 0 <= i < |kinds| ==> OfKind(r.value[i], kinds[i])
    decreases |kinds|
  {
    var r := Operands(input, kinds);
    if kinds != [] && r.Ok? {
      OperandsCons(input, kinds);
      var operand := ParseOperandOf(kinds[0], SkipSpace(input).rest);
      var more := Operands(operand.rest, kinds[1..]);
      OperandsKinds(operand.rest, kinds[1..]);
      KindsCons(operand.value, more.value, kinds);
    }
  }

  /** An opcode followed by operands of the given kinds, each after required whitespace. */
  function ParseForm(input: string, kinds: seq<OperandKind>): (r: ParseResult<Instructions.AssemblyInstruction>)
    requires |kinds| <= 3
    ensures r.Ok? ==> |r.rest| < |Trim(input)|
  {
    var opcode :- ParseOpcode(Trim(input));
    var operands :- Operands(opcode.0, kinds);
    Ok(operands.0, Filled(opcode.1, operands.1))
  }

  /** An instruction with the opcode and its operand fields filled from the left with `ts`. */
  function Filled(opcode: Token, ts: seq<Token>): Instructions.AssemblyInstruction
    requires |ts| <= 3
  {
    Instruction(opcode,
      if |ts| > 0 then Some(ts[0]) else None,
      if |ts| > 1 then Some(ts[1]) else None,
      if |ts| > 2 then Some(ts[2]) else None)
  }

  /** `parse_instruction0`: an opcode alone (`parse_opcode` trims once more, to the same effect). */
  function ParseInstruction0(input: string): (r: ParseResult<Instructions.AssemblyInstruction>)
    ensures r.Ok? ==> |r.rest| < |Trim(input)|
  {
    ParseForm(input, [])
  }

  /** `parse_instruction1`: an opcode, a register and a number, as in `LOAD $1 #200`. */
  function ParseInstruction1(input: string): (r: ParseResult<Instructions.AssemblyInstruction>)
    ensures r.Ok? ==> |r.rest| < |Trim(input)|
  {
    ParseForm(input, [RegisterOperand, NumberOperand])
  }

  /** `parse_instruction2`: an opcode and three registers, as in `ADD $0 $1 $2`. */
  function ParseInstruction2(input: string): (r: ParseResult<Instructions.AssemblyInstruction>)
    ensures r.Ok? ==> |r.rest| < |Trim(input)|
  {
    ParseForm(input, [RegisterOperand, RegisterOperand, RegisterOperand])
  }

  /** `parse_instruction3`: an opcode and two registers, as in `EQ $0 $1`. */
  function ParseInstruction3(input: string): (r: ParseResult<Instructions.AssemblyInstruction>)
    ensures r.Ok? ==> |r.rest| < |Trim(input)|
  {
    ParseForm(input, [RegisterOperand, RegisterOperand])
  }

  /** `parse_instruction4`: an opcode and one register, as in `JMP $0`. */
  function ParseInstruction4(input: string): (r: ParseResult<Instructions.AssemblyInstruction>)
    ensures r.Ok? ==> |r.rest| < |Trim(input)|
  {
    ParseForm(input, [RegisterOperand])
  }

  /** `parse_instruction`: `alt` over forms 1, 2, 3, 4 and then the bare opcode of form 0, which every other form starts like. */
  function ParseInstruction(input: string): (r: ParseResult<Instructions.AssemblyInstruction>)
    ensures r.Ok? ==> |r.rest| < |input|
  {
    Or(ParseInstruction1(input),
    Or(ParseInstruction2(input),
    Or(ParseInstruction3(input),
    Or(ParseInstruction4(input),
       ParseInstruction0(input)))))
  }

  /**
   * The instructions the parser can produce: an opcode token, no label or
   * directive, and operands filled from the left in one of the forms
   * (none), ($r), ($r $r), ($r $r $r) or ($r #n).
   */
  predicate WellFormed(inst: Instructions.AssemblyInstruction) {
    && inst.opcode.Some? && inst.opcode.value.Opcode?
    && inst.labelDecl.None? && inst.directive.None?
    && (inst.operand1.None? ==> inst.operand2.None?)
    && (inst.operand2.None? ==> inst.operand3.None?)
    && (inst.operand1.Some? ==> inst.operand1.value.Register?)
    && (inst.operand2.Some? ==> inst.operand2.value.Register? || (inst.operand2.value.IntegerOperand? && inst.operand3.None?))
    && (inst.operand3.Some? ==> inst.operand3.value.Register?)
  }

  /** Each form yields an instruction of that form. */
  lemma FormShape(input: string, kinds: seq<OperandKind>)
    requires |kinds| <= 3 && (NumberOperand in kinds ==> kinds == [RegisterOperand, NumberOperand])
    ensures var r := ParseForm(input, kinds); r.Ok? ==> WellFormed(r.value)
  {
    var r := ParseForm(input, kinds);
    if r.Ok? {
      var opcode := ParseOpcode(Trim(input));
      var operands := Operands(opcode.rest, kinds);
      OperandsKinds(opcode.rest, kinds);
      var ts := operands.value;
      assert |ts| == |kinds|;
      assert r.value == Filled(opcode.value, ts);
      assert forall i :: 0 <= i < |kinds| ==> OfKind(ts[i], kinds[i]);
      if |kinds| == 3 {
        assert kinds[0] == kinds[1] == kinds[2] == RegisterOperand;
      } else if |kinds| == 2 {
        assert kinds[0] == RegisterOperand;
      } else if |kinds| == 1 {
        assert kinds[0] == RegisterOperand;
      }
    }
  }

  /** Every instruction `parse_instruction` returns has one of the five forms. */
  lemma InstructionShape(input: string)
    ensures var r := ParseInstruction(input); r.Ok? ==> WellFormed(r.value)
  {
    FormShape(input, [RegisterOperand, NumberOperand]);
    FormShape(input, [RegisterOperand, RegisterOperand, RegisterOperand]);
    FormShape(input, [RegisterOperand, RegisterOperand]);
    FormShape(input, [RegisterOperand]);
    FormShape(input, []);
  }

  // ---------------------------------------------------------------- programs

  /** nom's `many1(parse_instruction)`: at least one instruction, then as many as parse. */
  function Many1(input: string): (r: ParseResult<seq<Instructions.AssemblyInstruction>>)
    ensures r.Ok? ==> |r.value| >= 1 && |r.rest| < |input|
  {
    var first := ParseInstruction(input);
    if first.Ok? then Many(first.rest, [first.value]) else first.PropagateFailure()
  }

  /**
   * The loop of `many1` after the first instruction: stops, keeping what it
   * has, at the first recoverable error, and gives up on a parser that
   * consumed nothing.
   */
  function Many(input: string, acc: seq<Instructions.AssemblyInstruction>)
    : (r: ParseResult<seq<Instructions.AssemblyInstruction>>)
    ensures r.Ok? ==> |r.rest| <= |input| && |r.value| >= |acc|
    decreases |input|
  {
    var p := ParseInstruction(input);
    if p.Error? then Ok(input, acc)
    else if p.Failure? then Failure(p.at)
    else if p.Overflow? then Overflow(p.digits)
    else if p.rest == input then Error
    else Many(p.rest, acc + [p.value])
  }

  /** `parse_program`: trims the whole text, then `many1(parse_instruction)`. */
  function ParseProgram(input: string): (r: ParseResult<Programs.Program>)
    ensures r.Ok? ==> |r.rest| < |Trim(input)|
  {
    var s := Trim(input);
    var instructions :- Many1(s);
    Ok(instructions.0, Programs.Program(instructions.1))
  }

  /** The turns of the loop of `many1`. */
  lemma ManyCases(input: string, acc: seq<Instructions.AssemblyInstruction>)
    ensures var p := ParseInstruction(input); var r := Many(input, acc);
      && (p.Error? ==> r == Ok(input, acc))
      && (p.Ok? && p.rest != input ==> r == Many(p.rest, acc + [p.value]))
      && (r.Ok? ==> p.Error? || (p.Ok? && p.rest != input))
  {
  }

  lemma WellFormedAppend(acc: seq<Instructions.AssemblyInstruction>, inst: Instructions.AssemblyInstruction)
    requires forall i :: 0 <= i < |acc| ==> WellFormed(acc[i])
    requires WellFormed(inst)
    ensures forall i :: 0 <= i < |acc + [inst]| ==> WellFormed((acc + [inst])[i])
  {
  }

  /**
   * The loop stops exactly where no further instruction parses, and every
   * instruction it collected has one of the five forms.
   */
  lemma {:induction false} ManyStopsAtError(input: string, acc: seq<Instructions.AssemblyInstruction>)
    requires forall i :: 0 <= i < |acc| ==> WellFormed(acc[i])
    ensures var r := Many(input, acc);
      r.Ok? ==> ParseInstruction(r.rest).Error? && forall i :: 0 <= i < |r.value| ==> WellFormed(r.value[i])
    decreases |input|
  {
    var p := ParseInstruction(input);
    ManyCases(input, acc);
    if p.Ok? && p.rest != input {
      InstructionShape(input);
      WellFormedAppend(acc, p.value);
      ManyStopsAtError(p.rest, acc + [p.value]);
    }
  }

  /**
   * A parsed program has at least one instruction, each of one of the five
   * forms, and parsing stopped where no further instruction parses.
   */
  lemma ProgramShape(input: string)
    ensures var r := ParseProgram(input);
      r.Ok? ==>
        && |r.value.instructions| >= 1
        && (forall i :: 0 <= i < |r.value.instructions| ==> WellFormed(r.value.instructions[i]))
        && ParseInstruction(r.rest).Error?
  {
    var r := ParseProgram(input);
    if r.Ok? {
      var s := Trim(input);
      ProgramSteps(input);
      var first := ParseInstruction(s);
      InstructionShape(s);
      ManyStopsAtError(first.rest, [first.value]);
    }
  }

  /** A first instruction and the loop after it make up the parsed program. */
  lemma ProgramFrom(input: string, rest: string, inst: Instructions.AssemblyInstruction,
                    end: string, insts: seq<Instructions.AssemblyInstruction>)
    requires ParseInstruction(Trim(input)) == Ok(rest, inst)
    requires Many(rest, [inst]) == Ok(end, insts)
    ensures ParseProgram(input) == Ok(end, Programs.Program(insts))
  {
    assert Many1(Trim(input)) == Ok(end, insts);
  }

  /** A parsed program is the loop of `many1` after a first instruction. */
  lemma ProgramSteps(input: string)
    ensures var r := ParseProgram(input); var first := ParseInstruction(Trim(input));
      r.Ok? ==> first.Ok? && Many(first.rest, [first.value]) == Ok(r.rest, r.value.instructions)
  {
    var m := Many1(Trim(input));
    assert ParseProgram(input).Ok? ==> m.Ok? && ParseProgram(input) == Ok(m.rest, Programs.Program(m.value));
  }

  /** The first instruction decides whether a program parses at all. */
  lemma ProgramNeedsAnInstruction(input: string)
    ensures ParseInstruction(Trim(input)).Error? ==> ParseProgram(input).Error?
    ensures ParseInstruction(Trim(input)).Failure? ==> ParseProgram(input) == Failure(ParseInstruction(Trim(input)).at)
  {
  }

  // ---------------------------------------------------------------- examples

  /** A word of letters followed by a non-letter reads as the opcode the word names. */
  lemma OpcodeWord(word: string, rest: string)
    requires word != [] && forall i :: 0 <= i < |word| ==> IsAlpha(word[i])
    requires rest == [] || (!IsAlpha(rest[0]) && !IsWhitespace(rest[|rest| - 1]))
    ensures ParseOpcode(word + rest) == Ok(rest, Opcode(Opcodes.FromMnemonic(word)))
  {
    var s := word + rest;
    TrimUnchanged(s);
    RunLengthConcat(word, rest, Alpha);
    assert s[..|word|] == word && s[|word|..] == rest;
  }

  /** `$` and a run of digits followed by a non-digit reads as the register the digits name. */
  lemma RegisterDigits(digits: string, rest: string)
    requires digits != [] && forall i :: 0 <= i < |digits| ==> IsDigit(digits[i])
    requires rest == [] || (!IsDigit(rest[0]) && !IsWhitespace(rest[|rest| - 1]))
    requires DecimalValue(digits) < 0x100
    ensures ParseRegister(['$'] + digits + rest) == Ok(rest, Register(DecimalValue(digits)))
  {
    MarkedDigitsTrimmed('$', digits, rest);
    AfterFirst('$', digits, rest);
    DigitRun(digits, rest);
    RegisterSteps(['$'] + digits + rest, digits + rest, digits, rest);
  }

  /** A marker, digits and text that does not end in whitespace are left as they are by trimming. */
  lemma MarkedDigitsTrimmed(marker: char, digits: string, rest: string)
    requires !IsWhitespace(marker)
    requires digits != [] && forall i :: 0 <= i < |digits| ==> IsDigit(digits[i])
    requires rest == [] || !IsWhitespace(rest[|rest| - 1])
    ensures Trim([marker] + digits + rest) == [marker] + digits + rest
  {
    var s := [marker] + digits + rest;
    var last := if rest == [] then digits[|digits| - 1] else rest[|rest| - 1];
    assert s[|s| - 1] == last;
    TrimUnchanged(s);
  }

  /** `parse_register` on trimmed text: the `$`, then the digits. */
  lemma RegisterSteps(s: string, after: string, digits: string, rest: string)
    requires Trim(s) == s && s == ['$'] + after && Take1(after, Digit) == Ok(rest, digits)
    requires DecimalValue(digits) < 0x100
    ensures ParseRegister(s) == Ok(rest, Register(DecimalValue(digits)))
  {
  }

  /** `digit1` takes a whole run of digits and stops at the first non-digit. */
  lemma DigitRun(digits: string, rest: string)
    requires digits != [] && forall i :: 0 <= i < |digits| ==> IsDigit(digits[i])
    requires rest == [] || !IsDigit(rest[0])
    ensures Take1(digits + rest, Digit) == Ok(rest, digits)
  {
    RunLengthConcat(digits, rest, Digit);
    SplitAt(digits, rest);
  }

  /** `#` and a run of digits followed by a non-digit reads as the number the digits name. */
  lemma NumberDigits(digits: string, rest: string)
    requires digits != [] && forall i :: 0 <= i < |digits| ==> IsDigit(digits[i])
    requires rest == [] || !IsDigit(rest[0])
    requires DecimalValue(digits) <= INT32_MAX
    ensures ParseNumber(['#'] + digits + rest) == Ok(rest, IntegerOperand(DecimalValue(digits)))
  {
    var s := ['#'] + digits + rest;
    assert Tag(s, '#') == Ok(digits + rest, '#') by { AfterFirst('#', digits, rest); }
    DigitRun(digits, rest);
  }

  /** A spelling of a mnemonic in any letter case is a word of at least two letters. */
  lemma SpellingLetters(word: string, op: Opcodes.Opcode)
    requires Opcodes.UpperCase(word) == Opcodes.Mnemonic(op)
    ensures |word| >= 2 && forall i :: 0 <= i < |word| ==> IsAlpha(word[i])
  {
    forall i | 0 <= i < |word|
      ensures IsAlpha(word[i])
    {
      assert Opcodes.UpperCase(word)[i] == Opcodes.UpperChar(word[i]);
    }
  }

  /** Every opcode spelling of the source's test, in upper, mixed or lower case, reads as the opcode the test expects. */
  lemma OpcodeExamples(i: nat)
    requires i < |Opcodes.TEST_SPELLINGS|
    ensures ParseOpcode(Opcodes.TEST_SPELLINGS[i].0) == Ok("", Opcode(Opcodes.TEST_SPELLINGS[i].1))
  {
    var word := Opcodes.TEST_SPELLINGS[i].0;
    var op := Opcodes.TEST_SPELLINGS[i].1;
    Opcodes.TestSpelling(i);
    SpellingLetters(word, op);
    OpcodeWord(word, "");
    Opcodes.SpelledAs(word, op);
    assert word + "" == word;
  }

  /** `parse_opcode` stops at the first non-letter and leaves the rest, as in the source's test. */
  lemma OpcodeStopsExample()
    ensures ParseOpcode("hlt bla bla") == Ok(" bla bla", Opcode(Opcodes.HLT))
  {
    assert "hlt" + " bla bla" == "hlt bla bla";
    Opcodes.MoreMnemonicExamples();
    OpcodeWord("hlt", " bla bla");
  }

  /** The first register example of the source's tests. */
  lemma RegisterZeroExample()
    ensures ParseRegister("$0") == Ok("", Register(0))
  {
    assert ['$'] + "0" + "" == "$0";
    assert DecimalValue("0") == 0;
    RegisterDigits("0", "");
  }

  /** A register followed by more text, as in the source's tests. */
  lemma RegisterStopsExample()
    ensures ParseRegister("$31 #999") == Ok(" #999", Register(31))
  {
    var s := "$31 #999";
    assert s == ['$'] + "31" + " #999";
    assert DecimalValue("31") == 31 by { assert "31"[..1] == "3"; }
    RegisterDigits("31", " #999");
  }

  /** A `$` without a digit fails past the `$`, as in the source's test. */
  lemma RegisterFailureExample()
    ensures ParseRegister("$a $b") == Failure("a $b")
  {
    TrimUnchanged("$a $b");
    assert RunLength("a $b", Digit) == 0;
  }

  /** The first number example of the source's tests. */
  lemma NumberExample()
    ensures ParseNumber("#500") == Ok("", IntegerOperand(500))
  {
    assert ['#'] + "500" + "" == "#500";
    assert DecimalValue("500") == 500 by {
      assert "500"[..2] == "50" && "50"[..1] == "5";
    }
    NumberDigits("500", "");
  }

  /** A number followed by a comment, as in the source's tests. */
  lemma NumberStopsExample()
    ensures ParseNumber("#1000 ;1k") == Ok(" ;1k", IntegerOperand(1000))
  {
    assert ['#'] + "1000" + " ;1k" == "#1000 ;1k";
    assert DecimalValue("1000") == 1000 by {
      assert "10"[..1] == "1";
      assert "100"[..2] == "10";
      assert DecimalValue("100") == 100;
      assert "1000"[..3] == "100";
    }
    NumberDigits("1000", " ;1k");
  }

  /** `parse_operand` trims around a number, as in the source's tests. */
  lemma NumberOperandExample()
    ensures ParseOperand(" #99 ") == Ok("", IntegerOperand(99))
  {
    assert " " + "#99" + " " == " #99 ";
    assert ['#'] + "99" + "" == "#99";
    TrimAround(" ", "#99", " ");
    assert DecimalValue("99") == 99 by { assert "99"[..1] == "9"; }
    NumberDigits("99", "");
  }

  /** `parse_operand` trims around a register, as in the source's tests. */
  lemma RegisterOperandExample()
    ensures ParseOperand(" $23 ") == Ok("", Register(23))
  {
    assert " " + "$23" + " " == " $23 ";
    assert ['$'] + "23" + "" == "$23";
    TrimAround(" ", "$23", " ");
    assert DecimalValue("23") == 23 by { assert "23"[..1] == "2"; }
    RegisterDigits("23", "");
  }

  /** A letters-and-digits name and a colon read as a label declaration. */
  lemma LabelWord(name: string, rest: string)
    requires name != [] && forall i :: 0 <= i < |name| ==> IsAlphanumeric(name[i])
    requires Trim(name + [':'] + rest) == name + [':'] + rest
    ensures ParseLabelDeclaration(name + [':'] + rest) == Ok(rest, LabelDeclaration(name))
  {
    var s := name + [':'] + rest;
    assert s == name + ([':'] + rest);
    RunLengthConcat(name, [':'] + rest, Alphanumeric);
    SplitAt(name, [':'] + rest);
  }

  /** A letters-and-digits name after its marker fills the whole trimmed text. */
  lemma MarkedWord(marker: char, name: string)
    requires !IsWhitespace(marker)
    requires name != [] && forall i :: 0 <= i < |name| ==> IsAlphanumeric(name[i])
    ensures var s := [marker] + name;
      Trim(s) == s && |s| >= 2 && s[1..] == name && RunLength(name, Alphanumeric) == |name|
  {
    var s := [marker] + name;
    assert s[|s| - 1] == name[|name| - 1];
    ClassesAndWhitespace(name[|name| - 1]);
    TrimUnchanged(s);
    RunLengthConcat(name, [], Alphanumeric);
    assert name + [] == name;
  }

  /** `@` and a letters-and-digits name read as a label usage. */
  lemma LabelUsageWord(name: string)
    requires name != [] && forall i :: 0 <= i < |name| ==> IsAlphanumeric(name[i])
    ensures ParseLabelUsage(['@'] + name) == Ok("", LabelUsage(name))
  {
    var s := ['@'] + name;
    MarkedWord('@', name);
    assert s[1] == name[0] && name[..|name|] == name && name[|name|..] == [];
    ParseLabelUsageSpec(s);
  }

  /** `.` and a letters-and-digits name read as a directive. */
  lemma DirectiveWord(name: string)
    requires name != [] && forall i :: 0 <= i < |name| ==> IsAlphanumeric(name[i])
    ensures ParseDirectiveDeclaration(['.'] + name) == Ok("", Directive(name))
  {
    var s := ['.'] + name;
    MarkedWord('.', name);
    assert s[1] == name[0] && name[..|name|] == name && name[|name|..] == [];
    ParseDirectiveDeclarationSpec(s);
  }

  /** The label declaration example of the source's tests. */
  lemma LabelDeclarationExample()
    ensures ParseLabelDeclaration("label1: ") == Ok("", LabelDeclaration("label1"))
  {
    assert "" + "label1:" + " " == "label1: ";
    assert "label1" + [':'] + "" == "label1:";
    TrimAround("", "label1:", " ");
    TrimUnchanged("label1:");
    LabelWord("label1", "");
  }

  /** The label usage example of the source's tests. */
  lemma LabelUsageExample()
    ensures ParseLabelUsage("@label1") == Ok("", LabelUsage("label1"))
  {
    assert ['@'] + "label1" == "@label1";
    LabelUsageWord("label1");
  }

  /** The directive example of the source's tests. */
  lemma DirectiveExample()
    ensures ParseDirectiveDeclaration(".code ") == Ok("", Directive("code"))
  {
    assert "" + ".code" + " " == ".code ";
    assert ['.'] + "code" == ".code";
    TrimAround("", ".code", " ");
    DirectiveWord("code");
    assert ParseDirectiveDeclaration(".code") == Ok("", Directive("code"));
  }

  /** One successful run of `parse_directive_combined`, step by step. */
  lemma DirectiveCombinedStep(input: string, afterLabel: string, labelDecl: Option<Token>, afterDirective: string, directive: Token)
    requires Opt(ParseLabelDeclaration(Trim(input)), Trim(input)) == Ok(afterLabel, labelDecl)
    requires ParseDirectiveDeclaration(afterLabel) == Ok(afterDirective, directive)
    requires ParseOperand(afterDirective).Error?
    ensures ParseDirectiveCombined(input) ==
      Ok(afterDirective, Instructions.AssemblyInstruction(None, labelDecl, Some(directive), None, None, None))
  {
    AbsentOperandsStayAbsent(afterDirective, 3);
  }

  /** The label of the combined example. */
  lemma CombinedLabelExample()
    ensures ParseLabelDeclaration("test1: .asciiz") == Ok(" .asciiz", LabelDeclaration("test1"))
  {
    assert "test1" + [':'] + " .asciiz" == "test1: .asciiz";
    TrimUnchanged("test1: .asciiz");
    LabelWord("test1", " .asciiz");
  }

  /** The directive of the combined example. */
  lemma CombinedDirectiveExample()
    ensures ParseDirectiveDeclaration(" .asciiz") == Ok("", Directive("asciiz"))
  {
    assert " " + ".asciiz" + "" == " .asciiz";
    assert ['.'] + "asciiz" == ".asciiz";
    TrimAround(" ", ".asciiz", "");
    DirectiveWord("asciiz");
    assert ParseDirectiveDeclaration(".asciiz") == Ok("", Directive("asciiz"));
  }

  /** The combined example of the source's tests: a label, a directive and no operands. */
  lemma DirectiveCombinedExample()
    ensures ParseDirectiveCombined("test1: .asciiz ") ==
      Ok("", Instructions.AssemblyInstruction(None, Some(LabelDeclaration("test1")), Some(Directive("asciiz")), None, None, None))
  {
    assert "" + "test1: .asciiz" + " " == "test1: .asciiz ";
    TrimAround("", "test1: .asciiz", " ");
    CombinedLabelExample();
    CombinedDirectiveExample();
    assert ParseOperand("").Error?;
    DirectiveCombinedStep("test1: .asciiz ", " .asciiz", Some(LabelDeclaration("test1")), "", Directive("asciiz"));
  }
}
