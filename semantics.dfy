/**
 * What one fetch-decode-execute step of the Iridium VM (src/vm.rs) does to
 * the machine state, as a function on values. The class in vm.dfy runs the
 * same steps in place and is proved to agree with this function.
 *
 * The source panics on a register index of 32 or more, on reading past the
 * end of the program, on `i32` overflow, on division by zero and on `usize`
 * overflow of the program counter (a debug build, as its tests run). Each
 * panic is a `Fault` here.
 */
module Semantics {
  import opened Base
  import opened Results
  import opened Opcodes

  /** `MAX_REGISTERS`. */
  const REGISTER_COUNT: nat := 32

  /** The panics a step can raise. */
  datatype Fault =
    | ProgramOverrun
    | RegisterOutOfRange(index: Byte)
    | ArithmeticOverflow
    | DivisionByZero
    | PcOverflow
    | PcUnderflow

  /** The fields of the `VM` struct. */
  datatype Machine = Machine(
    registers: seq<Int32>,
    pc: nat,
    program: seq<Byte>,
    remainder: UInt32,
    equalFlag: bool)

  predicate Valid(m: Machine) {
    |m.registers| == REGISTER_COUNT
  }

  /** `VM::new`: every register 0, `pc` 0, no program, remainder 0, flag false. */
  function New(): (m: Machine)
    ensures Valid(m) && m.pc == 0 && m.program == [] && m.remainder == 0 && !m.equalFlag
    ensures forall i :: 0 <= i < REGISTER_COUNT ==> m.registers[i] == 0
  {
    Machine(seq(REGISTER_COUNT, _ => 0), 0, [], 0, false)
  }

  /** A new machine whose program is `program`, as the source's tests set it up. */
  function Loaded(program: seq<Byte>): (m: Machine)
    ensures Valid(m) && m.pc == 0 && m.program == program && m.remainder == 0 && !m.equalFlag
    ensures forall i :: 0 <= i < REGISTER_COUNT ==> m.registers[i] == 0
  {
    New().(program := program)
  }

  // ---------------------------------------------------------------- conversions

  /** Rust's `x as u32` for an `i32`: two's complement reinterpretation. */
  function AsU32(x: int): (r: UInt32)
    ensures 0 <= x < UINT32_LIMIT ==> r == x
    ensures -UINT32_LIMIT <= x < 0 ==> r == x + UINT32_LIMIT
  {
    x % UINT32_LIMIT
  }

  /** Rust's `x as usize` for an `i32` on a 64-bit target: sign extension. */
  function AsUsize(x: int): (r: Usize)
    ensures 0 <= x < USIZE_LIMIT ==> r == x
    ensures -USIZE_LIMIT <= x < 0 ==> r == x + USIZE_LIMIT
  {
    x % USIZE_LIMIT
  }

  function Abs(x: int): nat {
    if x < 0 then -x else x
  }

  /** Rust's `/` on integers: the quotient rounded toward zero. */
  function TruncDiv(a: int, b: int): (q: int)
    requires b != 0
    ensures Abs(q) * Abs(b) <= Abs(a) < (Abs(q) + 1) * Abs(b)
    ensures q > 0 ==> (a < 0) == (b < 0)
    ensures q < 0 ==> (a < 0) != (b < 0)
  {
    var q := Abs(a) / Abs(b);
    FloorBounds(Abs(a), Abs(b));
    if (a < 0) == (b < 0) then q else -q
  }

  /** The quotient of natural numbers is rounded down. */
  lemma FloorBounds(n: nat, k: nat)
    requires k > 0
    ensures (n / k) * k <= n < (n / k + 1) * k
  {
    var q, r := n / k, n % k;
    assert n == q * k + r;
    assert (q + 1) * k == q * k + k;
  }

  /** Rust's `%` on integers: the remainder with the sign of the dividend. */
  function TruncRem(a: int, b: int): (r: int)
    requires b != 0
    ensures Abs(r) < Abs(b)
    ensures a >= 0 ==> r >= 0
    ensures a < 0 ==> r <= 0
  {
    var r := Abs(a) % Abs(b);
    if a < 0 then -r else r
  }

  /**
   * The quotient and remainder are the pair that Rust promises: they
   * rebuild the dividend, the remainder is smaller than the divisor in
   * magnitude, and it is never of the opposite sign to the dividend (which
   * is what rounding the quotient toward zero means).
   */
  lemma TruncDivSpec(a: int, b: int)
    requires b != 0
    ensures var q, r := TruncDiv(a, b), TruncRem(a, b);
      && a == b * q + r
      && Abs(r) < Abs(b)
      && (a >= 0 ==> r >= 0)
      && (a < 0 ==> r <= 0)
  {
    var q, r := Magnitudes(a, b);
    Signs(a, b, q, r);
  }

  /** The truncated quotient and remainder carry the natural quotient and remainder of the magnitudes. */
  lemma Magnitudes(a: int, b: int) returns (q: int, r: int)
    requires b != 0
    ensures q >= 0 && 0 <= r < Abs(b) && Abs(a) == Abs(b) * q + r
    ensures TruncDiv(a, b) == (if (a < 0) == (b < 0) then q else -q)
    ensures TruncRem(a, b) == (if a < 0 then -r else r)
  {
    q, r := Abs(a) / Abs(b), Abs(a) % Abs(b);
  }

  /** Giving the magnitudes' quotient and remainder their signs rebuilds the dividend. */
  lemma Signs(a: int, b: int, q: int, r: int)
    requires b != 0 && Abs(a) == Abs(b) * q + r
    ensures a == b * (if (a < 0) == (b < 0) then q else -q) + (if a < 0 then -r else r)
  {
    if b < 0 {
      assert Abs(b) * q == -(b * q);
      if a >= 0 {
        assert b * -q == -(b * q);
      }
    } else if a < 0 {
      assert b * -q == -(b * q);
    }
  }

  /** A quotient is never larger in magnitude than its dividend. */
  lemma QuotientBound(a: int, b: int)
    requires b != 0
    ensures Abs(TruncDiv(a, b)) <= Abs(a)
    ensures Abs(b) >= 2 ==> 2 * Abs(TruncDiv(a, b)) <= Abs(a)
  {
    var q, r := Magnitudes(a, b);
    Scale(Abs(b), q);
  }

  /** Multiplying by a factor of at least one (two) gives at least the number (its double). */
  lemma Scale(k: int, q: int)
    requires k >= 1 && q >= 0
    ensures k * q >= q && (k >= 2 ==> k * q >= 2 * q)
  {
  }

  /**
   * Dividing two `i32` values overflows `i32` only for the most negative
   * value divided by -1, the one case where Rust's `/` panics for a
   * non-zero divisor.
   */
  lemma DivisionOverflow(a: int, b: int)
    requires IsInt32(a) && IsInt32(b) && b != 0
    ensures !IsInt32(TruncDiv(a, b)) <==> a == INT32_MIN && b == -1
  {
    QuotientBound(a, b);
    if Abs(b) == 1 {
      var q, r := Magnitudes(a, b);
    }
  }

  /** An `i32` result, or the overflow panic. */
  function Checked(x: int): (r: Result<Int32, Fault>)
    ensures r.Ok? <==> -0x8000_0000 <= x < 0x8000_0000
    ensures r.Ok? ==> r.value == x
    ensures r.Err? ==> r.error == ArithmeticOverflow
  {
    if IsInt32(x) then Ok(x) else Err(ArithmeticOverflow)
  }

  // ---------------------------------------------------------------- fetching

  /** `next_8_bits`: the byte at `pc`, with `pc` moved past it. */
  function Fetch8(m: Machine): (r: Result<(Machine, Byte), Fault>)
    ensures r.Ok? <==> m.pc < |m.program|
    ensures r.Ok? ==> r.value.0 == m.(pc := m.pc + 1) && r.value.1 == m.program[m.pc]
    ensures r.Err? ==> r.error == ProgramOverrun
  {
    if m.pc < |m.program| then Ok((m.(pc := m.pc + 1), m.program[m.pc])) else Err(ProgramOverrun)
  }

  /** `next_16_bits`: the big-endian 16-bit value at `pc`, with `pc` moved past it. */
  function Fetch16(m: Machine): (r: Result<(Machine, int), Fault>)
    ensures r.Ok? <==> m.pc + 2 <= |m.program|
    ensures r.Ok? ==> r.value.0 == m.(pc := m.pc + 2) && 0 <= r.value.1 < 0x1_0000
    ensures r.Ok? ==> r.value.1 == m.program[m.pc] as int * 256 + m.program[m.pc + 1] as int
    ensures r.Err? ==> r.error == ProgramOverrun
  {
    if m.pc + 1 < |m.program| then
      Ok((m.(pc := m.pc + 2), BigEndian16(m.program[m.pc], m.program[m.pc + 1])))
    else
      Err(ProgramOverrun)
  }

  /** `self.registers[index]`. */
  function Read(m: Machine, index: Byte): (r: Result<Int32, Fault>)
    requires Valid(m)
    ensures r.Ok? <==> index < REGISTER_COUNT
    ensures r.Ok? ==> r.value == m.registers[index]
    ensures r.Err? ==> r.error == RegisterOutOfRange(index)
  {
    if index < REGISTER_COUNT then Ok(m.registers[index]) else Err(RegisterOutOfRange(index))
  }

  /** `self.registers[index] = v`. */
  function Write(m: Machine, index: Byte, v: Int32): (r: Result<Machine, Fault>)
    requires Valid(m)
    ensures r.Ok? <==> index < REGISTER_COUNT
    ensures r.Ok? ==> Valid(r.value) && r.value.registers[index] == v
    ensures r.Ok? ==> forall i :: 0 <= i < REGISTER_COUNT && i != index ==> r.value.registers[i] == m.registers[i]
    ensures r.Ok? ==> r.value.pc == m.pc && r.value.program == m.program
    ensures r.Ok? ==> r.value.remainder == m.remainder && r.value.equalFlag == m.equalFlag
    ensures r.Err? ==> r.error == RegisterOutOfRange(index)
  {
    if index < REGISTER_COUNT then Ok(m.(registers := m.registers[index := v])) else Err(RegisterOutOfRange(index))
  }

  /** `self.registers[self.next_8_bits() as usize]`: the register the next byte names. */
  function FetchRegister(m: Machine): Result<(Machine, Int32), Fault>
    requires Valid(m)
  {
    var index :- Fetch8(m);
    var v :- Read(index.0, index.1);
    Ok((index.0, v))
  }

  /** Reading the register the next byte names: the byte must exist and name a register. */
  lemma FetchRegisterSpec(m: Machine)
    requires Valid(m)
    ensures var p, i, r := m.program, m.pc, FetchRegister(m);
      && (r.Ok? <==> i < |p| && p[i] < REGISTER_COUNT)
      && (r.Ok? ==> r.value == (m.(pc := i + 1), m.registers[p[i]]))
      && (r.Err? ==> r.error == if i < |p| then RegisterOutOfRange(p[i]) else ProgramOverrun)
  {
  }

  // ---------------------------------------------------------------- the arms of the match

  /** The arithmetic opcodes other than DIV. */
  predicate IsArithmetic(op: Opcode) {
    op == ADD || op == SUB || op == MUL
  }

  /** The comparison opcodes. */
  predicate IsComparison(op: Opcode) {
    op == EQ || op == NEQ || op == GT || op == GTE || op == LT || op == LTE
  }

  /** The exact value of an arithmetic operation, before the overflow check. */
  function Exact(op: Opcode, a: int, b: int): int
    requires IsArithmetic(op)
  {
    if op == ADD then a + b else if op == SUB then a - b else a * b
  }

  /** The relation a comparison opcode tests. */
  function Relation(op: Opcode, a: int, b: int): bool
    requires IsComparison(op)
  {
    if op == EQ then a == b
    else if op == NEQ then a != b
    else if op == GT then a > b
    else if op == GTE then a >= b
    else if op == LT then a < b
    else a <= b
  }

  /** The LOAD arm, after the opcode byte: a register byte and a 16-bit value. */
  function Load(m: Machine): (r: Result<(Machine, bool), Fault>)
    requires Valid(m)
    ensures r.Ok? ==> Valid(r.value.0) && r.value.0.program == m.program && !r.value.1
  {
    var reg :- Fetch8(m);
    var num :- Fetch16(reg.0);
    var m2 :- Write(num.0, reg.1, num.1);
    Ok((m2, false))
  }

  /** The ADD, SUB and MUL arms: two source registers, then the destination. */
  function Arithmetic(op: Opcode, m: Machine): (r: Result<(Machine, bool), Fault>)
    requires Valid(m) && IsArithmetic(op)
    ensures r.Ok? ==> Valid(r.value.0) && r.value.0.program == m.program && !r.value.1
  {
    var a :- FetchRegister(m);
    var b :- FetchRegister(a.0);
    var v :- Checked(Exact(op, a.1, b.1));
    var dest :- Fetch8(b.0);
    var m2 :- Write(dest.0, dest.1, v);
    Ok((m2, false))
  }

  /** The DIV arm: the truncated quotient into the destination, the remainder as `u32`. */
  function Divide(m: Machine): (r: Result<(Machine, bool), Fault>)
    requires Valid(m)
    ensures r.Ok? ==> Valid(r.value.0) && r.value.0.program == m.program && !r.value.1
  {
    var a :- FetchRegister(m);
    var b :- FetchRegister(a.0);
    if b.1 == 0 then Err(DivisionByZero)
    else
      var v :- Checked(TruncDiv(a.1, b.1));
      var dest :- Fetch8(b.0);
      var m2 :- Write(dest.0, dest.1, v);
      Ok((m2.(remainder := AsU32(TruncRem(a.1, b.1))), false))
  }

  /** The comparison arms: set the flag, then skip the unused third byte. */
  function Compare(op: Opcode, m: Machine): (r: Result<(Machine, bool), Fault>)
    requires Valid(m) && IsComparison(op)
    ensures r.Ok? ==> Valid(r.value.0) && r.value.0.program == m.program && !r.value.1
  {
    var a :- FetchRegister(m);
    var b :- FetchRegister(a.0);
    var skip :- Fetch8(b.0.(equalFlag := Relation(op, a.1, b.1)));
    Ok((skip.0, false))
  }

  /** The JMP, JMPF and JMPB arms. */
  function Jump(op: Opcode, m: Machine): (r: Result<(Machine, bool), Fault>)
    requires Valid(m) && (op == JMP || op == JMPF || op == JMPB)
    ensures r.Ok? ==> Valid(r.value.0) && r.value.0.program == m.program && !r.value.1
  {
    var target :- FetchRegister(m);
    var here, offset := target.0.pc, AsUsize(target.1);
    if op == JMP then Ok((target.0.(pc := offset), false))
    else if op == JMPF then
      if here + offset < USIZE_LIMIT then Ok((target.0.(pc := here + offset), false)) else Err(PcOverflow)
    else
      if here - offset >= 0 then Ok((target.0.(pc := here - offset), false)) else Err(PcUnderflow)
  }

  /** The JEQ and JNEQ arms: jump when the flag is (JEQ) or is not (JNEQ) set. */
  function ConditionalJump(op: Opcode, m: Machine): (r: Result<(Machine, bool), Fault>)
    requires Valid(m) && (op == JEQ || op == JNEQ)
    ensures r.Ok? ==> Valid(r.value.0) && r.value.0.program == m.program && !r.value.1
  {
    var target :- FetchRegister(m);
    var taken := if op == JEQ then target.0.equalFlag else !target.0.equalFlag;
    Ok((if taken then target.0.(pc := AsUsize(target.1)) else target.0, false))
  }

  /**
   * `execute_instruction`: the machine after one instruction and whether it
   * reports itself done, or the panic the instruction raises.
   */
  function Step(m: Machine): (r: Result<(Machine, bool), Fault>)
    requires Valid(m)
    ensures r.Ok? ==> Valid(r.value.0) && r.value.0.program == m.program
  {
    if m.pc >= |m.program| then Ok((m, true)) else Execute(FromByte(m.program[m.pc]), m.(pc := m.pc + 1))
  }

  /** The arm of the `match` for `op`, once `decode_opcode` has moved `pc` past the opcode. */
  function Execute(op: Opcode, next: Machine): (r: Result<(Machine, bool), Fault>)
    requires Valid(next)
    ensures r.Ok? ==> Valid(r.value.0) && r.value.0.program == next.program
  {
      match op
      case HLT => Ok((next, true))
      case LOAD => Load(next)
      case ADD => Arithmetic(op, next)
      case SUB => Arithmetic(op, next)
      case MUL => Arithmetic(op, next)
      case DIV => Divide(next)
      case JMP => Jump(op, next)
      case JMPF => Jump(op, next)
      case JMPB => Jump(op, next)
      case EQ => Compare(op, next)
      case NEQ => Compare(op, next)
      case GT => Compare(op, next)
      case GTE => Compare(op, next)
      case LT => Compare(op, next)
      case LTE => Compare(op, next)
      case JEQ => ConditionalJump(op, next)
      case JNEQ => ConditionalJump(op, next)
      case _ => Ok((next, true))
  }

  /**
   * `run` with at most `fuel` steps: the machine when a step reports done
   * (true) or when the fuel runs out (false), or the first panic.
   */
  function Run(m: Machine, fuel: nat): (r: Result<(Machine, bool), Fault>)
    requires Valid(m)
    ensures r.Ok? ==> Valid(r.value.0) && r.value.0.program == m.program
    decreases fuel, 0
  {
    if fuel == 0 then Ok((m, false)) else Continue(Step(m), fuel - 1)
  }

  function Continue(s: Result<(Machine, bool), Fault>, fuel: nat): (r: Result<(Machine, bool), Fault>)
    requires s.Ok? ==> Valid(s.value.0)
    ensures r.Ok? && s.Ok? ==> Valid(r.value.0) && r.value.0.program == s.value.0.program
    decreases fuel, 1
  {
    if s.Err? then Err(s.error) else if s.value.1 then Ok((s.value.0, true)) else Run(s.value.0, fuel)
  }

  // ---------------------------------------------------------------- what each instruction does

  /** A step reports done exactly at the end of the program, on HLT, and on a byte no arm matches. */
  lemma StopsExactly(m: Machine)
    requires Valid(m)
    ensures Step(m).Ok? && Step(m).value.1 <==>
      m.pc >= |m.program| || FromByte(m.program[m.pc]) in {HLT, ALOC, IGL}
  {
  }

  /** Past the end of the program a step is done and changes nothing. */
  lemma EndOfProgram(m: Machine)
    requires Valid(m) && m.pc >= |m.program|
    ensures Step(m) == Ok((m, true))
  {
  }

  /** HLT, and a byte no arm matches, is done with `pc` one past the opcode and nothing else changed. */
  lemma HaltSpec(m: Machine)
    requires Valid(m) && m.pc < |m.program| && FromByte(m.program[m.pc]) in {HLT, ALOC, IGL}
    ensures Step(m) == Ok((m.(pc := m.pc + 1), true))
  {
  }

  /** What the LOAD arm does, from just past the opcode byte. */
  lemma LoadArm(n: Machine)
    requires Valid(n)
    ensures var p, i := n.program, n.pc;
      Load(n).Ok? <==> i + 2 < |p| && p[i] < REGISTER_COUNT
    ensures var p, i := n.program, n.pc;
      i + 2 < |p| && p[i] < REGISTER_COUNT ==>
        Load(n) == Ok((n.(registers := n.registers[p[i] := p[i + 1] as int * 256 + p[i + 2] as int], pc := i + 3), false))
    ensures var p, i := n.program, n.pc;
      Load(n).Err? ==> Load(n).error == if i + 2 < |p| then RegisterOutOfRange(p[i]) else ProgramOverrun
  {
  }

  /**
   * LOAD r hi lo puts the zero-extended 16-bit value hi·256 + lo into
   * register r and moves `pc` past the four bytes; it panics when the
   * program ends early or r is not a register.
   */
  lemma LoadSpec(m: Machine)
    requires Valid(m) && m.pc < |m.program| && FromByte(m.program[m.pc]) == LOAD
    ensures var p, i := m.program, m.pc;
      Step(m).Ok? <==> i + 3 < |p| && p[i + 1] < REGISTER_COUNT
    ensures var p, i := m.program, m.pc;
      i + 3 < |p| && p[i + 1] < REGISTER_COUNT ==>
        Step(m) == Ok((m.(registers := m.registers[p[i + 1] := p[i + 2] as int * 256 + p[i + 3] as int], pc := i + 4), false))
    ensures var p, i := m.program, m.pc;
      Step(m).Err? ==> Step(m).error == if i + 3 < |p| then RegisterOutOfRange(p[i + 1]) else ProgramOverrun
  {
    var next := m.(pc := m.pc + 1);
    assert Step(m) == Load(next);
    LoadArm(next);
  }

  /** What the ADD, SUB and MUL arms do, from just past the opcode byte. */
  lemma ArithmeticArm(op: Opcode, n: Machine)
    requires Valid(n) && IsArithmetic(op)
    ensures var p, i := n.program, n.pc;
      Arithmetic(op, n).Ok? <==>
        && i + 2 < |p| && p[i] < REGISTER_COUNT && p[i + 1] < REGISTER_COUNT && p[i + 2] < REGISTER_COUNT
        && IsInt32(Exact(op, n.registers[p[i]], n.registers[p[i + 1]]))
    ensures var p, i := n.program, n.pc;
      && i + 2 < |p| && p[i] < REGISTER_COUNT && p[i + 1] < REGISTER_COUNT && p[i + 2] < REGISTER_COUNT
      && IsInt32(Exact(op, n.registers[p[i]], n.registers[p[i + 1]])) ==>
        Arithmetic(op, n) == Ok((n.(registers := n.registers[p[i + 2] := Exact(op, n.registers[p[i]], n.registers[p[i + 1]])],
                                    pc := i + 3), false))
    ensures var p, i := n.program, n.pc;
      i + 1 < |p| && p[i] < REGISTER_COUNT && p[i + 1] < REGISTER_COUNT &&
      !IsInt32(Exact(op, n.registers[p[i]], n.registers[p[i + 1]])) ==>
        Arithmetic(op, n) == Err(ArithmeticOverflow)
  {
  }

  /**
   * ADD, SUB and MUL r1 r2 r3 write reg[r1] op reg[r2] into reg[r3] and move
   * `pc` past the four bytes; they panic on a missing byte, a byte that is
   * not a register, or a result outside `i32`, the overflow being detected
   * before the destination byte is read.
   */
  lemma ArithmeticSpec(m: Machine)
    requires Valid(m) && m.pc < |m.program| && IsArithmetic(FromByte(m.program[m.pc]))
    ensures var p, i, op := m.program, m.pc, FromByte(m.program[m.pc]);
      Step(m).Ok? <==>
        && i + 3 < |p| && p[i + 1] < REGISTER_COUNT && p[i + 2] < REGISTER_COUNT && p[i + 3] < REGISTER_COUNT
        && IsInt32(Exact(op, m.registers[p[i + 1]], m.registers[p[i + 2]]))
    ensures var p, i, op := m.program, m.pc, FromByte(m.program[m.pc]);
      && i + 3 < |p| && p[i + 1] < REGISTER_COUNT && p[i + 2] < REGISTER_COUNT && p[i + 3] < REGISTER_COUNT
      && IsInt32(Exact(op, m.registers[p[i + 1]], m.registers[p[i + 2]])) ==>
        Step(m) == Ok((m.(registers := m.registers[p[i + 3] := Exact(op, m.registers[p[i + 1]], m.registers[p[i + 2]])],
                          pc := i + 4), false))
    ensures var p, i, op := m.program, m.pc, FromByte(m.program[m.pc]);
      i + 2 < |p| && p[i + 1] < REGISTER_COUNT && p[i + 2] < REGISTER_COUNT &&
      !IsInt32(Exact(op, m.registers[p[i + 1]], m.registers[p[i + 2]])) ==>
        Step(m) == Err(ArithmeticOverflow)
  {
    var op, next := FromByte(m.program[m.pc]), m.(pc := m.pc + 1);
    assert Step(m) == Arithmetic(op, next);
    ArithmeticArm(op, next);
  }

  /** What the DIV arm does, from just past the opcode byte. */
  lemma DivideArm(n: Machine)
    requires Valid(n)
    ensures var p, i := n.program, n.pc;
      Divide(n).Ok? <==>
        && i + 2 < |p| && p[i] < REGISTER_COUNT && p[i + 1] < REGISTER_COUNT && p[i + 2] < REGISTER_COUNT
        && n.registers[p[i + 1]] != 0
        && IsInt32(TruncDiv(n.registers[p[i]], n.registers[p[i + 1]]))
    ensures var p, i := n.program, n.pc;
      && i + 2 < |p| && p[i] < REGISTER_COUNT && p[i + 1] < REGISTER_COUNT && p[i + 2] < REGISTER_COUNT
      && n.registers[p[i + 1]] != 0
      && IsInt32(TruncDiv(n.registers[p[i]], n.registers[p[i + 1]])) ==>
        var a, b := n.registers[p[i]], n.registers[p[i + 1]];
        Divide(n) == Ok((n.(registers := n.registers[p[i + 2] := TruncDiv(a, b)],
                            remainder := AsU32(TruncRem(a, b)),
                            pc := i + 3), false))
    ensures var p, i := n.program, n.pc;
      i + 1 < |p| && p[i] < REGISTER_COUNT && p[i + 1] < REGISTER_COUNT && n.registers[p[i + 1]] == 0 ==>
        Divide(n) == Err(DivisionByZero)
  {
  }

  /**
   * DIV r1 r2 r3 writes the quotient of reg[r1] by reg[r2], rounded toward
   * zero, into reg[r3], and the remainder (with the dividend's sign, as a
   * `u32`) into `remainder`; a zero divisor panics.
   */
  lemma DivideSpec(m: Machine)
    requires Valid(m) && m.pc < |m.program| && FromByte(m.program[m.pc]) == DIV
    ensures var p, i := m.program, m.pc;
      Step(m).Ok? <==>
        && i + 3 < |p| && p[i + 1] < REGISTER_COUNT && p[i + 2] < REGISTER_COUNT && p[i + 3] < REGISTER_COUNT
        && m.registers[p[i + 2]] != 0
        && IsInt32(TruncDiv(m.registers[p[i + 1]], m.registers[p[i + 2]]))
    ensures var p, i := m.program, m.pc;
      && i + 3 < |p| && p[i + 1] < REGISTER_COUNT && p[i + 2] < REGISTER_COUNT && p[i + 3] < REGISTER_COUNT
      && m.registers[p[i + 2]] != 0
      && IsInt32(TruncDiv(m.registers[p[i + 1]], m.registers[p[i + 2]])) ==>
        var a, b := m.registers[p[i + 1]], m.registers[p[i + 2]];
        Step(m) == Ok((m.(registers := m.registers[p[i + 3] := TruncDiv(a, b)],
                          remainder := AsU32(TruncRem(a, b)),
                          pc := i + 4), false))
    ensures var p, i := m.program, m.pc;
      i + 2 < |p| && p[i + 1] < REGISTER_COUNT && p[i + 2] < REGISTER_COUNT && m.registers[p[i + 2]] == 0 ==>
        Step(m) == Err(DivisionByZero)
  {
    var next := m.(pc := m.pc + 1);
    assert Step(m) == Divide(next);
    DivideArm(next);
  }

  /** What the comparison arms do, from just past the opcode byte. */
  lemma CompareArm(op: Opcode, n: Machine)
    requires Valid(n) && IsComparison(op)
    ensures var p, i := n.program, n.pc;
      Compare(op, n).Ok? <==> i + 2 < |p| && p[i] < REGISTER_COUNT && p[i + 1] < REGISTER_COUNT
    ensures var p, i := n.program, n.pc;
      Compare(op, n).Ok? ==>
        Compare(op, n).value == (n.(equalFlag := Relation(op, n.registers[p[i]], n.registers[p[i + 1]]), pc := i + 3), false)
  {
    var p, i := n.program, n.pc;
    var a := FetchRegister(n);
    assert a.Ok? <==> i < |p| && p[i] < REGISTER_COUNT by { FetchRegisterSpec(n); }
    if a.Ok? {
      assert a.value == (n.(pc := i + 1), n.registers[p[i]]) by { FetchRegisterSpec(n); }
      var n1 := a.value.0;
      var b := FetchRegister(n1);
      assert b.Ok? <==> i + 1 < |p| && p[i + 1] < REGISTER_COUNT by { FetchRegisterSpec(n1); }
      if b.Ok? {
        assert b.value == (n.(pc := i + 2), n.registers[p[i + 1]]) by { FetchRegisterSpec(n1); }
        var n2 := n.(equalFlag := Relation(op, n.registers[p[i]], n.registers[p[i + 1]]), pc := i + 2);
        assert Compare(op, n) == if i + 2 < |p| then Ok((n2.(pc := i + 3), false)) else Err(ProgramOverrun);
      } else {
        assert Compare(op, n) == Err(b.error);
      }
    } else {
      assert Compare(op, n) == Err(a.error);
    }
  }

  /**
   * EQ, NEQ, GT, GTE, LT and LTE r1 r2 set the flag to the relation between
   * reg[r1] and reg[r2], change no register, and move `pc` past all four
   * bytes, the third being skipped.
   */
  lemma CompareSpec(m: Machine)
    requires Valid(m) && m.pc < |m.program| && IsComparison(FromByte(m.program[m.pc]))
    ensures var p, i := m.program, m.pc;
      Step(m).Ok? <==> i + 3 < |p| && p[i + 1] < REGISTER_COUNT && p[i + 2] < REGISTER_COUNT
    ensures Step(m).Ok? ==>
      !Step(m).value.1 && Step(m).value.0 == m.(equalFlag := Step(m).value.0.equalFlag, pc := m.pc + 4)
  {
    var op, next := FromByte(m.program[m.pc]), m.(pc := m.pc + 1);
    StepIsCompare(m);
    CompareArm(op, next);
  }

  /** A step at a comparison opcode is the comparison arm, from just past the opcode. */
  lemma StepIsCompare(m: Machine)
    requires Valid(m) && m.pc < |m.program| && IsComparison(FromByte(m.program[m.pc]))
    ensures Step(m) == Compare(FromByte(m.program[m.pc]), m.(pc := m.pc + 1))
  {
  }

  /** The flag a comparison leaves is the relation its opcode names. */
  lemma CompareFlagSpec(m: Machine)
    requires Valid(m) && m.pc < |m.program| && IsComparison(FromByte(m.program[m.pc]))
    ensures var p, i, op, r := m.program, m.pc, FromByte(m.program[m.pc]), Step(m);
      r.Ok? ==>
      i + 2 < |p| && p[i + 1] < REGISTER_COUNT && p[i + 2] < REGISTER_COUNT &&
      (var a, b, after := m.registers[p[i + 1]], m.registers[p[i + 2]], r.value.0;
        && (op == EQ ==> (after.equalFlag <==> a == b))
        && (op == NEQ ==> (after.equalFlag <==> a != b))
        && (op == GT ==> (after.equalFlag <==> a > b))
        && (op == GTE ==> (after.equalFlag <==> a >= b))
        && (op == LT ==> (after.equalFlag <==> a < b))
        && (op == LTE ==> (after.equalFlag <==> a <= b)))
  {
    var p, i := m.program, m.pc;
    var op, next := FromByte(p[i]), m.(pc := i + 1);
    StepIsCompare(m);
    CompareArm(op, next);
    if Step(m).Ok? {
      assert Step(m).value.0.equalFlag == Relation(op, m.registers[p[i + 1]], m.registers[p[i + 2]]);
    }
  }

  /** What the JMP, JMPF and JMPB arms do, from just past the opcode byte. */
  lemma JumpArm(op: Opcode, n: Machine)
    requires Valid(n) && (op == JMP || op == JMPF || op == JMPB)
    ensures var p, i := n.program, n.pc;
      Jump(op, n).Ok? <==>
        && i < |p| && p[i] < REGISTER_COUNT
        && (op == JMPF ==> i + 1 + AsUsize(n.registers[p[i]]) < USIZE_LIMIT)
        && (op == JMPB ==> i + 1 - AsUsize(n.registers[p[i]]) >= 0)
    ensures var p, i := n.program, n.pc;
      Jump(op, n).Ok? ==>
        var t := AsUsize(n.registers[p[i]]);
        Jump(op, n).value == (n.(pc := if op == JMP then t else if op == JMPF then i + 1 + t else i + 1 - t), false)
  {
  }

  /** JMP r sets `pc` to reg[r] (as `usize`) and changes nothing else. */
  lemma JumpSpec(m: Machine)
    requires Valid(m) && m.pc < |m.program| && FromByte(m.program[m.pc]) == JMP
    ensures var p, i := m.program, m.pc;
      Step(m).Ok? <==> i + 1 < |p| && p[i + 1] < REGISTER_COUNT
    ensures var p, i := m.program, m.pc;
      Step(m).Ok? ==>
        var t := m.registers[p[i + 1]];
        && Step(m).value == (m.(pc := AsUsize(t)), false)
        && (t >= 0 ==> Step(m).value.0.pc == t)
  {
    var next := m.(pc := m.pc + 1);
    assert Step(m) == Jump(JMP, next);
    JumpArm(JMP, next);
  }

  /**
   * JMPF r moves `pc` forward by reg[r] from just past the register byte.
   * The cast reads a negative reg[r] as reg[r] + 2^64: the addition then
   * overflows `usize` (a panic) when |reg[r]| <= pc + 2, and otherwise gives
   * a `pc` far past the end of the program.
   */
  lemma JumpForwardSpec(m: Machine)
    requires Valid(m) && m.pc < |m.program| && FromByte(m.program[m.pc]) == JMPF
    ensures var p, i := m.program, m.pc;
      Step(m).Ok? <==> i + 1 < |p| && p[i + 1] < REGISTER_COUNT && i + 2 + AsUsize(m.registers[p[i + 1]]) < USIZE_LIMIT
    ensures var p, i := m.program, m.pc;
      Step(m).Ok? ==>
        var t := m.registers[p[i + 1]];
        && Step(m).value == (m.(pc := i + 2 + AsUsize(t)), false)
        && (t >= 0 ==> Step(m).value.0.pc == i + 2 + t)
  {
    var next := m.(pc := m.pc + 1);
    assert Step(m) == Jump(JMPF, next);
    JumpArm(JMPF, next);
  }

  /**
   * JMPB r moves `pc` back by reg[r] from just past the register byte; going
   * below zero (which a negative register gives) panics.
   */
  lemma JumpBackSpec(m: Machine)
    requires Valid(m) && m.pc < |m.program| && FromByte(m.program[m.pc]) == JMPB
    ensures var p, i := m.program, m.pc;
      Step(m).Ok? <==> i + 1 < |p| && p[i + 1] < REGISTER_COUNT && i + 2 - AsUsize(m.registers[p[i + 1]]) >= 0
    ensures var p, i := m.program, m.pc;
      Step(m).Ok? ==>
        var t := m.registers[p[i + 1]];
        && Step(m).value == (m.(pc := i + 2 - AsUsize(t)), false)
        && (t >= 0 ==> Step(m).value.0.pc == i + 2 - t)
  {
    var next := m.(pc := m.pc + 1);
    assert Step(m) == Jump(JMPB, next);
    JumpArm(JMPB, next);
  }

  /** What the JEQ and JNEQ arms do, from just past the opcode byte. */
  lemma ConditionalJumpArm(op: Opcode, n: Machine)
    requires Valid(n) && (op == JEQ || op == JNEQ)
    ensures var p, i := n.program, n.pc;
      ConditionalJump(op, n).Ok? <==> i < |p| && p[i] < REGISTER_COUNT
    ensures var p, i := n.program, n.pc;
      ConditionalJump(op, n).Ok? ==>
        var taken := if op == JEQ then n.equalFlag else !n.equalFlag;
        ConditionalJump(op, n).value == (n.(pc := if taken then AsUsize(n.registers[p[i]]) else i + 1), false)
  {
  }

  /**
   * JEQ r (JNEQ r) sets `pc` to reg[r] when the flag is set (clear), and
   * otherwise just moves past the register byte; nothing else changes.
   */
  lemma ConditionalJumpSpec(m: Machine)
    requires Valid(m) && m.pc < |m.program| && FromByte(m.program[m.pc]) in {JEQ, JNEQ}
    ensures var p, i := m.program, m.pc;
      Step(m).Ok? <==> i + 1 < |p| && p[i + 1] < REGISTER_COUNT
    ensures var p, i, op := m.program, m.pc, FromByte(m.program[m.pc]);
      Step(m).Ok? ==>
        var taken := if op == JEQ then m.equalFlag else !m.equalFlag;
        Step(m).value == (m.(pc := if taken then AsUsize(m.registers[p[i + 1]]) else i + 2), false)
  {
    var op, next := FromByte(m.program[m.pc]), m.(pc := m.pc + 1);
    assert Step(m) == ConditionalJump(op, next);
    ConditionalJumpArm(op, next);
  }

  // ---------------------------------------------------------------- running

  /** A step that continues passes the remaining fuel on to the next machine. */
  lemma RunContinues(m: Machine, next: Machine, fuel: nat)
    requires Valid(m) && Step(m) == Ok((next, false))
    ensures Run(m, fuel + 1) == Run(next, fuel)
  {
  }

  /** A step that reports done ends the run there. */
  lemma RunStops(m: Machine, next: Machine, fuel: nat)
    requires Valid(m) && Step(m) == Ok((next, true))
    ensures Run(m, fuel + 1) == Ok((next, true))
  {
  }

  // ---------------------------------------------------------------- the source's tests

  /** A new machine whose registers 0 and 1 hold `r0` and `r1` and whose program is `program`. */
  function Setup(r0: Int32, r1: Int32, program: seq<Byte>): (m: Machine)
    ensures Valid(m)
  {
    var m := Loaded(program);
    m.(registers := m.registers[0 := r0][1 := r1])
  }

  lemma SetupFacts(r0: Int32, r1: Int32, program: seq<Byte>)
    ensures var m := Setup(r0, r1, program);
      m.registers[0] == r0 && m.registers[1] == r1 && m.pc == 0 && m.program == program
  {
  }

  /** HLT stops the run one byte in. */
  lemma HaltExample()
    ensures Run(Loaded([0, 0]), 1) == Ok((Loaded([0, 0]).(pc := 1), true))
  {
    HaltSpec(Loaded([0, 0]));
  }

  /** An illegal byte stops the run one byte in. */
  lemma IllegalExample()
    ensures Run(Loaded([255]), 1) == Ok((Loaded([255]).(pc := 1), true))
  {
    HaltSpec(Loaded([255]));
  }

  /** LOAD $0 #500 leaves 500 in register 0. */
  lemma LoadExample()
    ensures var r := Run(Loaded([1, 0, 1, 244]), 2);
      r.Ok? && r.value.1 && r.value.0.registers[0] == 500
  {
    var m := Loaded([1, 0, 1, 244]);
    LoadSpec(m);
    var next := Step(m).value.0;
    RunContinues(m, next, 1);
    EndOfProgram(next);
  }

  /** The program of the arithmetic tests: LOAD $0 #x, LOAD $1 #y, then `code` $0 $1 $2. */
  function TwoLoadsThen(x: Byte, y: Byte, code: Byte): seq<Byte> {
    [1, 0, 0, x, 1, 1, 0, y, code, 0, 1, 2]
  }

  /** The machine of the arithmetic tests once the first LOAD has run. */
  function AfterOneLoad(x: Byte, y: Byte, code: Byte): (m: Machine)
    ensures Valid(m)
  {
    var m0 := Loaded(TwoLoadsThen(x, y, code));
    m0.(registers := m0.registers[0 := x], pc := 4)
  }

  /** The machine of the arithmetic tests once both LOADs have run. */
  function AfterTwoLoads(x: Byte, y: Byte, code: Byte): (m: Machine)
    ensures Valid(m)
  {
    var m1 := AfterOneLoad(x, y, code);
    m1.(registers := m1.registers[1 := y], pc := 8)
  }

  /** LOAD $0 #x puts x into register 0. */
  lemma FirstLoad(x: Byte, y: Byte, code: Byte)
    ensures Step(Loaded(TwoLoadsThen(x, y, code))) == Ok((AfterOneLoad(x, y, code), false))
  {
    var m0 := Loaded(TwoLoadsThen(x, y, code));
    LoadArm(m0.(pc := 1));
    assert Step(m0) == Load(m0.(pc := 1));
  }

  /** LOAD $1 #y puts y into register 1. */
  lemma SecondLoad(x: Byte, y: Byte, code: Byte)
    ensures Step(AfterOneLoad(x, y, code)) == Ok((AfterTwoLoads(x, y, code), false))
  {
    var m1 := AfterOneLoad(x, y, code);
    LoadArm(m1.(pc := 5));
    assert Step(m1) == Load(m1.(pc := 5));
  }

  /** The two LOADs of the arithmetic tests put x and y into registers 0 and 1. */
  lemma TwoLoads(x: Byte, y: Byte, code: Byte)
    ensures Run(Loaded(TwoLoadsThen(x, y, code)), 4) == Run(AfterTwoLoads(x, y, code), 2)
  {
    FirstLoad(x, y, code);
    RunContinues(Loaded(TwoLoadsThen(x, y, code)), AfterOneLoad(x, y, code), 3);
    SecondLoad(x, y, code);
    RunContinues(AfterOneLoad(x, y, code), AfterTwoLoads(x, y, code), 2);
  }

  /** A last instruction that continues past the end of the program ends a run with two steps of fuel. */
  lemma LastInstruction(m: Machine, last: Machine)
    requires Valid(m) && Step(m) == Ok((last, false)) && last.pc >= |last.program|
    ensures Run(m, 2) == Ok((last, true))
  {
    RunContinues(m, last, 1);
    EndOfProgram(last);
    RunStops(last, last, 0);
  }

  /** The arithmetic tests' third instruction writes x op y into register 2. */
  lemma ArithmeticStep(x: Byte, y: Byte, code: Byte)
    requires IsArithmetic(FromByte(code)) && IsInt32(Exact(FromByte(code), x, y))
    ensures var m := AfterTwoLoads(x, y, code);
      Step(m) == Ok((m.(registers := m.registers[2 := Exact(FromByte(code), x, y)], pc := 12), false))
  {
    var m := AfterTwoLoads(x, y, code);
    assert Step(m) == Arithmetic(FromByte(code), m.(pc := 9));
    ArithmeticArm(FromByte(code), m.(pc := 9));
  }

  /** A third instruction that runs to the end of the program completes the arithmetic tests' run. */
  lemma ThreeInstructions(x: Byte, y: Byte, code: Byte, last: Machine)
    requires Step(AfterTwoLoads(x, y, code)) == Ok((last, false)) && last.pc >= |last.program|
    ensures Run(Loaded(TwoLoadsThen(x, y, code)), 4) == Ok((last, true))
  {
    TwoLoads(x, y, code);
    LastInstruction(AfterTwoLoads(x, y, code), last);
  }

  /** The arithmetic tests' program leaves x and y in registers 0 and 1 and the result in register 2. */
  lemma ArithmeticProgram(x: Byte, y: Byte, code: Byte)
    requires IsArithmetic(FromByte(code)) && IsInt32(Exact(FromByte(code), x, y))
    ensures var m := AfterTwoLoads(x, y, code);
      Run(Loaded(TwoLoadsThen(x, y, code)), 4) ==
        Ok((m.(registers := m.registers[2 := Exact(FromByte(code), x, y)], pc := 12), true))
  {
    var m := AfterTwoLoads(x, y, code);
    ArithmeticStep(x, y, code);
    ThreeInstructions(x, y, code, m.(registers := m.registers[2 := Exact(FromByte(code), x, y)], pc := 12));
  }

  /** The division test's third instruction: the quotient into register 2, the remainder aside. */
  lemma DivideStep(x: Byte, y: Byte)
    requires y != 0
    ensures var m := AfterTwoLoads(x, y, 5);
      Step(m) == Ok((m.(registers := m.registers[2 := TruncDiv(x, y)], remainder := AsU32(TruncRem(x, y)), pc := 12), false))
  {
    var m := AfterTwoLoads(x, y, 5);
    QuotientBound(x, y);
    assert Step(m) == Divide(m.(pc := 9));
    DivideArm(m.(pc := 9));
  }

  /** The division test's program: x divided by y, the quotient in register 2 and the remainder aside. */
  lemma DivideProgram(x: Byte, y: Byte)
    requires y != 0
    ensures var m := AfterTwoLoads(x, y, 5);
      Run(Loaded(TwoLoadsThen(x, y, 5)), 4) ==
        Ok((m.(registers := m.registers[2 := TruncDiv(x, y)], remainder := AsU32(TruncRem(x, y)), pc := 12), true))
  {
    var m := AfterTwoLoads(x, y, 5);
    DivideStep(x, y);
    ThreeInstructions(x, y, 5, m.(registers := m.registers[2 := TruncDiv(x, y)], remainder := AsU32(TruncRem(x, y)), pc := 12));
  }

  /** 10 + 10 = 20. */
  lemma AddExample()
    ensures var r := Run(Loaded(TwoLoadsThen(10, 10, 2)), 4);
      r.Ok? && r.value.1 && r.value.0.registers[..3] == [10, 10, 20]
  {
    ArithmeticProgram(10, 10, 2);
    FirstThree(10, 10, 2, 20);
  }

  /** 10 · 10 = 100. */
  lemma MulExample()
    ensures var r := Run(Loaded(TwoLoadsThen(10, 10, 3)), 4);
      r.Ok? && r.value.1 && r.value.0.registers[..3] == [10, 10, 100]
  {
    ArithmeticProgram(10, 10, 3);
    FirstThree(10, 10, 3, 100);
  }

  /** 100 - 10 = 90. */
  lemma SubExample()
    ensures var r := Run(Loaded(TwoLoadsThen(100, 10, 4)), 4);
      r.Ok? && r.value.1 && r.value.0.registers[..3] == [100, 10, 90]
  {
    ArithmeticProgram(100, 10, 4);
    FirstThree(100, 10, 4, 90);
  }

  /** 21 / 10 = 2, remainder 1. */
  lemma DivExample()
    ensures var r := Run(Loaded(TwoLoadsThen(21, 10, 5)), 4);
      r.Ok? && r.value.1 && r.value.0.registers[..3] == [21, 10, 2] && r.value.0.remainder == 1
  {
    TwentyOneByTen();
    DivideProgram(21, 10);
    FirstThree(21, 10, 5, 2);
  }

  /** After both LOADs and a result in register 2, the first three registers are x, y and the result. */
  lemma FirstThree(x: Byte, y: Byte, code: Byte, v: Int32)
    ensures AfterTwoLoads(x, y, code).registers[2 := v][..3] == [x, y, v]
  {
    var rs := AfterTwoLoads(x, y, code).registers[2 := v];
    assert rs[0] == x && rs[1] == y && rs[2] == v;
  }

  /** 21 = 10 · 2 + 1. */
  lemma TwentyOneByTen()
    ensures TruncDiv(21, 10) == 2 && AsU32(TruncRem(21, 10)) == 1
  {
    var q, r := Magnitudes(21, 10);
  }

  /** JMP $0 with register 0 holding 1 sets `pc` to 1. */
  lemma JumpExample()
    ensures var r := Step(Setup(1, 0, [6, 0, 0, 0])); r.Ok? && r.value.0.pc == 1
  {
    JumpSpec(Setup(1, 0, [6, 0, 0, 0]));
  }

  /** JMPF $0 with register 0 holding 2 lands on byte 4. */
  lemma JumpForwardExample()
    ensures var r := Step(Setup(2, 0, [7, 0, 0, 0, 6, 0, 0, 0])); r.Ok? && r.value.0.pc == 4
  {
    JumpForwardSpec(Setup(2, 0, [7, 0, 0, 0, 6, 0, 0, 0]));
  }

  /** The source's JMPB test runs a JMP $0 first, with register 0 holding 4. */
  lemma JumpBackTestExample()
    ensures var r := Step(Setup(4, 2, [6, 0, 0, 0, 8, 1, 0, 0])); r.Ok? && r.value.0.pc == 4
  {
    JumpSpec(Setup(4, 2, [6, 0, 0, 0, 8, 1, 0, 0]));
  }

  /** JMPB $1 at byte 4 with register 1 holding 2 goes back to byte 4: a loop. */
  lemma JumpBackExample()
    ensures var m := Setup(4, 2, [6, 0, 0, 0, 8, 1, 0, 0]).(pc := 4);
      var r := Step(m); r.Ok? && r.value.0.pc == 4
  {
    JumpBackSpec(Setup(4, 2, [6, 0, 0, 0, 8, 1, 0, 0]).(pc := 4));
  }

  /** A comparison of registers 0 and 1, as every comparison test of the source spells it. */
  lemma CompareZeroOne(m: Machine)
    requires Valid(m) && m.pc + 3 < |m.program| && IsComparison(FromByte(m.program[m.pc]))
    requires m.program[m.pc + 1] == 0 && m.program[m.pc + 2] == 1
    ensures Step(m) == Ok((m.(equalFlag := Relation(FromByte(m.program[m.pc]), m.registers[0], m.registers[1]),
                              pc := m.pc + 4), false))
  {
    var op, next := FromByte(m.program[m.pc]), m.(pc := m.pc + 1);
    assert Step(m) == Compare(op, next);
    CompareArm(op, next);
  }

  /** The machine with register `index` overwritten, as the source's tests do between steps. */
  function Poke(m: Machine, index: nat, v: Int32): (r: Machine)
    requires Valid(m) && index < REGISTER_COUNT
    ensures Valid(r)
  {
    m.(registers := m.registers[index := v])
  }

  /** `count` copies of the comparison `code $0 $1`, padded to four bytes. */
  function Comparisons(code: Byte, count: nat): (p: seq<Byte>)
    ensures |p| == 4 * count
  {
    if count == 0 then [] else [code, 0, 1, 0] + Comparisons(code, count - 1)
  }

  /** Comparison `k` of `Comparisons(code, count)` starts at byte 4·k. */
  lemma {:induction false} ComparisonAt(code: Byte, count: nat, k: nat)
    requires k < count
    ensures var p := Comparisons(code, count); p[4 * k] == code && p[4 * k + 1] == 0 && p[4 * k + 2] == 1
  {
    if k > 0 {
      ComparisonAt(code, count - 1, k - 1);
    }
  }

  /**
   * The step the source's comparison tests take again and again: at
   * comparison `k`, the flag becomes the relation between registers 0 and 1.
   */
  lemma CompareAt(code: Byte, m: Machine, k: nat, count: nat)
    requires Valid(m) && IsComparison(FromByte(code)) && k < count
    requires m.program == Comparisons(code, count) && m.pc == 4 * k
    ensures Step(m) == Ok((m.(equalFlag := Relation(FromByte(code), m.registers[0], m.registers[1]), pc := m.pc + 4), false))
  {
    ComparisonAt(code, count, k);
    CompareZeroOne(m);
  }

  /** The first comparison of the source's comparison tests, on the registers as set up. */
  lemma CompareFirst(code: Byte, a: Int32, b: Int32, count: nat, flag: bool, m0: Machine)
    requires IsComparison(FromByte(code)) && count >= 1 && flag == Relation(FromByte(code), a, b)
    requires m0 == Setup(a, b, Comparisons(code, count))
    ensures Step(m0) == Ok((m0.(equalFlag := flag, pc := 4), false))
  {
    SetupFacts(a, b, Comparisons(code, count));
    CompareAt(code, m0, 0, count);
  }

  /**
   * The shape of the source's comparison tests: after the first comparison
   * one register is overwritten, and the next comparison sees the new value.
   */
  lemma CompareSecond(code: Byte, a: Int32, b: Int32, index: nat, v: Int32, count: nat, first: bool, second: bool)
    requires IsComparison(FromByte(code)) && index < 2 && count >= 2
    requires second == Relation(FromByte(code), if index == 0 then v else a, if index == 1 then v else b)
    ensures var m0 := Setup(a, b, Comparisons(code, count));
      var m2 := Poke(m0.(equalFlag := first, pc := 4), index, v);
      Step(m2) == Ok((m2.(equalFlag := second, pc := 8), false))
  {
    var m0 := Setup(a, b, Comparisons(code, count));
    var m2 := Poke(m0.(equalFlag := first, pc := 4), index, v);
    assert m2.program == Comparisons(code, count) && m2.pc == 4;
    assert m2.registers[0] == (if index == 0 then v else a) && m2.registers[1] == (if index == 1 then v else b);
    CompareAt(code, m2, 1, count);
  }

  /** The third comparison of a three-comparison test, after register `index` is overwritten again. */
  lemma CompareThird(code: Byte, m: Machine, index: nat, v: Int32, flag: bool)
    requires Valid(m) && m.program == Comparisons(code, 3) && m.pc == 8
    requires IsComparison(FromByte(code)) && index < 2
    requires flag == Relation(FromByte(code), if index == 0 then v else m.registers[0], if index == 1 then v else m.registers[1])
    ensures var m3 := Poke(m, index, v);
      Step(m3) == Ok((m3.(equalFlag := flag, pc := 12), false))
  {
    var m3 := Poke(m, index, v);
    assert m3.registers[0] == (if index == 0 then v else m.registers[0]) && m3.registers[1] == (if index == 1 then v else m.registers[1]);
    CompareAt(code, m3, 2, 3);
  }

  /** EQ: 99 and 99 set the flag; after register 1 becomes 10 the next EQ clears it. */
  lemma EqExample()
    ensures var m0 := Setup(99, 99, Comparisons(9, 2));
      var m1 := m0.(equalFlag := true, pc := 4);
      var m2 := Poke(m1, 1, 10);
      Step(m0) == Ok((m1, false)) && Step(m2) == Ok((m2.(equalFlag := false, pc := 8), false))
  {
    CompareFirst(9, 99, 99, 2, true, Setup(99, 99, Comparisons(9, 2)));
    CompareSecond(9, 99, 99, 1, 10, 2, true, false);
  }

  /** NEQ: 99 and 99 clear the flag; after register 1 becomes 10 the next NEQ sets it. */
  lemma NeqExample()
    ensures var m0 := Setup(99, 99, Comparisons(10, 2));
      var m1 := m0.(equalFlag := false, pc := 4);
      var m2 := Poke(m1, 1, 10);
      Step(m0) == Ok((m1, false)) && Step(m2) == Ok((m2.(equalFlag := true, pc := 8), false))
  {
    CompareFirst(10, 99, 99, 2, false, Setup(99, 99, Comparisons(10, 2)));
    CompareSecond(10, 99, 99, 1, 10, 2, false, true);
  }

  /** GT: 100 > 99 sets the flag; after register 0 becomes 10 the next GT clears it. */
  lemma GtExample()
    ensures var m0 := Setup(100, 99, Comparisons(11, 2));
      var m1 := m0.(equalFlag := true, pc := 4);
      var m2 := Poke(m1, 0, 10);
      Step(m0) == Ok((m1, false)) && Step(m2) == Ok((m2.(equalFlag := false, pc := 8), false))
  {
    CompareFirst(11, 100, 99, 2, true, Setup(100, 99, Comparisons(11, 2)));
    CompareSecond(11, 100, 99, 0, 10, 2, true, false);
  }

  /** GTE: 100 >= 99 and 99 >= 99 set the flag; 9 >= 99 clears it. */
  lemma GteExample()
    ensures var m0 := Setup(100, 99, Comparisons(12, 3));
      var m1 := m0.(equalFlag := true, pc := 4);
      var m2 := Poke(m1, 0, 99);
      var m3 := Poke(m2.(equalFlag := true, pc := 8), 0, 9);
      && Step(m0) == Ok((m1, false))
      && Step(m2) == Ok((m2.(equalFlag := true, pc := 8), false))
      && Step(m3) == Ok((m3.(equalFlag := false, pc := 12), false))
  {
    CompareFirst(12, 100, 99, 3, true, Setup(100, 99, Comparisons(12, 3)));
    CompareSecond(12, 100, 99, 0, 99, 3, true, true);
    var m0 := Setup(100, 99, Comparisons(12, 3));
    CompareThird(12, Poke(m0.(equalFlag := true, pc := 4), 0, 99).(equalFlag := true, pc := 8), 0, 9, false);
  }

  /** LT: 10 < 99 sets the flag; after register 0 becomes 100 the next LT clears it. */
  lemma LtExample()
    ensures var m0 := Setup(10, 99, Comparisons(13, 2));
      var m1 := m0.(equalFlag := true, pc := 4);
      var m2 := Poke(m1, 0, 100);
      Step(m0) == Ok((m1, false)) && Step(m2) == Ok((m2.(equalFlag := false, pc := 8), false))
  {
    CompareFirst(13, 10, 99, 2, true, Setup(10, 99, Comparisons(13, 2)));
    CompareSecond(13, 10, 99, 0, 100, 2, true, false);
  }

  /** LTE: 100 <= 99 clears the flag; 99 <= 99 and then 99 <= 199 set it. */
  lemma LteExample()
    ensures var m0 := Setup(100, 99, Comparisons(14, 3));
      var m1 := m0.(equalFlag := false, pc := 4);
      var m2 := Poke(m1, 0, 99);
      var m3 := Poke(m2.(equalFlag := true, pc := 8), 1, 199);
      && Step(m0) == Ok((m1, false))
      && Step(m2) == Ok((m2.(equalFlag := true, pc := 8), false))
      && Step(m3) == Ok((m3.(equalFlag := true, pc := 12), false))
  {
    CompareFirst(14, 100, 99, 3, false, Setup(100, 99, Comparisons(14, 3)));
    CompareSecond(14, 100, 99, 0, 99, 3, false, true);
    var m0 := Setup(100, 99, Comparisons(14, 3));
    CompareThird(14, Poke(m0.(equalFlag := false, pc := 4), 0, 99).(equalFlag := true, pc := 8), 1, 199, true);
  }

  /** JEQ $0 with the flag set jumps to register 0's value. */
  lemma JumpIfEqualExample()
    ensures var r := Step(Setup(5, 0, [15, 0, 0, 0, 1, 2, 3, 4]).(equalFlag := true)); r.Ok? && r.value.0.pc == 5
  {
    ConditionalJumpSpec(Setup(5, 0, [15, 0, 0, 0, 1, 2, 3, 4]).(equalFlag := true));
  }

  /** JNEQ $0 with the flag clear jumps to register 0's value. */
  lemma JumpIfNotEqualExample()
    ensures var r := Step(Setup(5, 0, [16, 0, 0, 0, 1, 2, 3, 4])); r.Ok? && r.value.0.pc == 5
  {
    ConditionalJumpSpec(Setup(5, 0, [16, 0, 0, 0, 1, 2, 3, 4]));
  }
}
