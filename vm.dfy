/**
 * The `VM` struct of src/vm.rs as a class whose methods update its fields in
 * place. Every method is proved to do exactly what the step functions of
 * module Semantics say: on success the new state and the result are theirs,
 * and a panic of the source is the `Err` they give.
 */
module VirtualMachine {
  import opened Base
  import opened Results
  import opened Opcodes
  import opened Semantics

  /**
   * A method's result `r` and the state `after` it leaves are what the step
   * function's outcome `spec` says. After a panic the source's machine is
   * gone, so only the fault is compared.
   */
  ghost predicate Agrees<T>(spec: Result<(Machine, T), Fault>, r: Result<T, Fault>, after: Machine) {
    match spec
    case Ok(v) => r == Ok(v.1) && after == v.0
    case Err(e) => r == Err(e)
  }

  class VM {
    var registers: array<Int32>
    var pc: nat
    var program: seq<Byte>
    var remainder: UInt32
    var equalFlag: bool

    ghost predicate Valid()
      reads this
    {
      registers.Length == REGISTER_COUNT
    }

    /** The fields, as the value module Semantics works on. */
    ghost function State(): (m: Machine)
      reads this, registers
      requires Valid()
      ensures Semantics.Valid(m)
    {
      Machine(registers[..], pc, program, remainder, equalFlag)
    }

    /** `VM::new`. */
    constructor ()
      ensures Valid() && State() == New() && fresh(registers)
    {
      registers := new Int32[REGISTER_COUNT](_ => 0);
      pc, program, remainder, equalFlag := 0, [], 0, false;
    }

    /** `add_byte`: appends one byte to the program. */
    method AddByte(v: Byte)
      requires Valid()
      modifies this
      ensures Valid() && registers == old(registers)
      ensures State() == old(State()).(program := old(program) + [v])
    {
      program := program + [v];
    }

    /** `add_bytes`: appends a slice to the program. */
    method AddBytes(v: seq<Byte>)
      requires Valid()
      modifies this
      ensures Valid() && registers == old(registers)
      ensures State() == old(State()).(program := old(program) + v)
    {
      program := program + v;
    }

    /** `next_8_bits`. */
    method Next8Bits() returns (r: Result<Byte, Fault>)
      requires Valid()
      modifies this
      ensures Valid() && registers == old(registers)
      ensures Agrees(Fetch8(old(State())), r, State())
    {
      if pc >= |program| {
        return Err(ProgramOverrun);
      }
      r := Ok(program[pc]);
      pc := pc + 1;
    }

    /** `next_16_bits`. */
    method Next16Bits() returns (r: Result<int, Fault>)
      requires Valid()
      modifies this
      ensures Valid() && registers == old(registers)
      ensures Agrees(Fetch16(old(State())), r, State())
    {
      if pc + 1 >= |program| {
        return Err(ProgramOverrun);
      }
      r := Ok(BigEndian16(program[pc], program[pc + 1]));
      pc := pc + 2;
    }

    /** `decode_opcode`, which `execute_instruction` calls only with `pc` inside the program. */
    method DecodeOpcode() returns (op: Opcode)
      requires Valid() && pc < |program|
      modifies this
      ensures Valid() && registers == old(registers)
      ensures op == FromByte(old(program[pc])) && State() == old(State()).(pc := old(pc) + 1)
    {
      op := FromByte(program[pc]);
      pc := pc + 1;
    }

    /** `self.registers[self.next_8_bits() as usize]`. */
    method NextRegister() returns (r: Result<Int32, Fault>)
      requires Valid()
      modifies this
      ensures Valid() && registers == old(registers)
      ensures Agrees(FetchRegister(old(State())), r, State())
    {
      var index :- Next8Bits();
      if index >= REGISTER_COUNT {
        return Err(RegisterOutOfRange(index));
      }
      return Ok(registers[index]);
    }

    /** The LOAD arm of `execute_instruction`. */
    method ExecuteLoad() returns (r: Result<bool, Fault>)
      requires Valid()
      modifies this, registers
      ensures Valid() && registers == old(registers)
      ensures Agrees(Semantics.Load(old(State())), r, State())
    {
      var reg :- Next8Bits();
      var num :- Next16Bits();
      if reg >= REGISTER_COUNT {
        return Err(RegisterOutOfRange(reg));
      }
      registers[reg] := num;
      return Ok(false);
    }

    /** The ADD, SUB and MUL arms: the sum, difference or product is checked before the destination is read. */
    method ExecuteArithmetic(op: Opcode) returns (r: Result<bool, Fault>)
      requires Valid() && IsArithmetic(op)
      modifies this, registers
      ensures Valid() && registers == old(registers)
      ensures Agrees(Arithmetic(op, old(State())), r, State())
    {
      var a :- NextRegister();
      var b :- NextRegister();
      var v := Exact(op, a, b);
      if !IsInt32(v) {
        return Err(ArithmeticOverflow);
      }
      var dest :- Next8Bits();
      if dest >= REGISTER_COUNT {
        return Err(RegisterOutOfRange(dest));
      }
      registers[dest] := v;
      return Ok(false);
    }

    /** The DIV arm: the truncated quotient into the destination, the remainder as `u32`. */
    method ExecuteDivide() returns (r: Result<bool, Fault>)
      requires Valid()
      modifies this, registers
      ensures Valid() && registers == old(registers)
      ensures Agrees(Divide(old(State())), r, State())
    {
      var a :- NextRegister();
      var b :- NextRegister();
      if b == 0 {
        return Err(DivisionByZero);
      }
      var v := TruncDiv(a, b);
      if !IsInt32(v) {
        return Err(ArithmeticOverflow);
      }
      var dest :- Next8Bits();
      if dest >= REGISTER_COUNT {
        return Err(RegisterOutOfRange(dest));
      }
      registers[dest] := v;
      remainder := AsU32(TruncRem(a, b));
      return Ok(false);
    }

    /** The EQ, NEQ, GT, GTE, LT and LTE arms: set the flag, then skip the padding byte. */
    method ExecuteCompare(op: Opcode) returns (r: Result<bool, Fault>)
      requires Valid() && IsComparison(op)
      modifies this
      ensures Valid() && registers == old(registers)
      ensures Agrees(Compare(op, old(State())), r, State())
    {
      var a :- NextRegister();
      var b :- NextRegister();
      equalFlag := Relation(op, a, b);
      var skip :- Next8Bits();
      return Ok(false);
    }

    /** The JMP, JMPF and JMPB arms. */
    method ExecuteJump(op: Opcode) returns (r: Result<bool, Fault>)
      requires Valid() && (op == JMP || op == JMPF || op == JMPB)
      modifies this
      ensures Valid() && registers == old(registers)
      ensures Agrees(Jump(op, old(State())), r, State())
    {
      var target :- NextRegister();
      var offset := AsUsize(target);
      if op == JMP {
        pc := offset;
      } else if op == JMPF {
        if pc + offset >= USIZE_LIMIT {
          return Err(PcOverflow);
        }
        pc := pc + offset;
      } else {
        if pc - offset < 0 {
          return Err(PcUnderflow);
        }
        pc := pc - offset;
      }
      return Ok(false);
    }

    /** The JEQ and JNEQ arms. */
    method ExecuteConditionalJump(op: Opcode) returns (r: Result<bool, Fault>)
      requires Valid() && (op == JEQ || op == JNEQ)
      modifies this
      ensures Valid() && registers == old(registers)
      ensures Agrees(ConditionalJump(op, old(State())), r, State())
    {
      var target :- NextRegister();
      if (op == JEQ && equalFlag) || (op == JNEQ && !equalFlag) {
        pc := AsUsize(target);
      }
      return Ok(false);
    }

    /**
     * `execute_instruction`: whether the machine is done (past the end of the
     * program, HLT, or an opcode without an arm), or the panic.
     */
    method ExecuteInstruction() returns (r: Result<bool, Fault>)
      requires Valid()
      modifies this, registers
      ensures Valid() && registers == old(registers)
      ensures Agrees(Step(old(State())), r, State())
    {
      if pc >= |program| {
        return Ok(true);
      }
      var op := DecodeOpcode();
      match op
      case HLT => r := Ok(true);
      case LOAD => r := ExecuteLoad();
      case ADD => r := ExecuteArithmetic(op);
      case SUB => r := ExecuteArithmetic(op);
      case MUL => r := ExecuteArithmetic(op);
      case DIV => r := ExecuteDivide();
      case JMP => r := ExecuteJump(op);
      case JMPF => r := ExecuteJump(op);
      case JMPB => r := ExecuteJump(op);
      case EQ => r := ExecuteCompare(op);
      case NEQ => r := ExecuteCompare(op);
      case GT => r := ExecuteCompare(op);
      case GTE => r := ExecuteCompare(op);
      case LT => r := ExecuteCompare(op);
      case LTE => r := ExecuteCompare(op);
      case JEQ => r := ExecuteConditionalJump(op);
      case JNEQ => r := ExecuteConditionalJump(op);
      case _ => r := Ok(true);
    }

    /** `run_once`: one instruction, its result dropped. */
    method RunOnce() returns (r: Result<(), Fault>)
      requires Valid()
      modifies this, registers
      ensures Valid() && registers == old(registers)
      ensures var s := Step(old(State()));
        if s.Ok? then r.Ok? && State() == s.value.0 else r == Err(s.error)
    {
      var done :- ExecuteInstruction();
      return Ok(());
    }

    /**
     * `run`, with at most `fuel` instructions: true when an instruction
     * reported the machine done, false when the fuel ran out first.
     */
    method Run(fuel: nat) returns (r: Result<bool, Fault>)
      requires Valid()
      modifies this, registers
      ensures Valid() && registers == old(registers)
      ensures Agrees(Semantics.Run(old(State()), fuel), r, State())
    {
      var left := fuel;
      while left > 0
        invariant Valid() && registers == old(registers)
        invariant Semantics.Run(old(State()), fuel) == Semantics.Run(State(), left)
      {
        var done :- ExecuteInstruction();
        left := left - 1;
        if done {
          return Ok(true);
        }
      }
      return Ok(false);
    }

    /** `registers()`: an iterator over a copy of the registers. */
    method Registers() returns (it: RegisterIterator)
      requires Valid()
      ensures fresh(it) && it.Valid() && it.Remaining() == State().registers
    {
      it := new RegisterIterator(registers[..]);
    }
  }

  /** The `Registers` iterator: a copy of the 32 registers and a position in it. */
  class RegisterIterator {
    const registers: seq<Int32>
    var i: nat

    ghost predicate Valid()
      reads this
    {
      |registers| == REGISTER_COUNT && i <= REGISTER_COUNT
    }

    /** The values the iterator has yet to yield, in order. */
    ghost function Remaining(): (s: seq<Int32>)
      reads this
      requires Valid()
      ensures |s| == REGISTER_COUNT - i
    {
      registers[i..]
    }

    /** `Registers::new`. */
    constructor (registers: seq<Int32>)
      requires |registers| == REGISTER_COUNT
      ensures Valid() && this.registers == registers && i == 0
    {
      this.registers := registers;
      i := 0;
    }

    /** `next`: the next register, or None once all 32 have been yielded. */
    method Next() returns (r: Option<Int32>)
      requires Valid()
      modifies this
      ensures Valid()
      ensures old(Remaining()) == [] ==> r == None && i == old(i)
      ensures old(Remaining()) != [] ==> r == Some(old(Remaining())[0]) && Remaining() == old(Remaining())[1..]
    {
      if i < REGISTER_COUNT {
        r := Some(registers[i]);
        i := i + 1;
      } else {
        r := None;
      }
    }
  }

  // ---------------------------------------------------------------- the tests of src/vm.rs on the class

  /** `test_add_byte`: a new VM given the byte 1 holds the program [1]. */
  method AddByteExample() returns (program: seq<Byte>)
    ensures program == [1]
  {
    var vm := new VM();
    vm.AddByte(1);
    program := vm.program;
  }

  /** `test_add_bytes`: a new VM given the slice [1, 2] holds the program [1, 2]. */
  method AddBytesExample() returns (program: seq<Byte>)
    ensures program == [1, 2]
  {
    var vm := new VM();
    vm.AddBytes([1, 2]);
    program := vm.program;
  }

  /**
   * `test_registers_iterator`: with register i holding i, the iterator
   * yields 0, 1, …, 31 and then stops.
   */
  method RegistersIteratorExample() returns (yielded: seq<Int32>)
    ensures |yielded| == REGISTER_COUNT
    ensures forall k :: 0 <= k < |yielded| ==> yielded[k] == k
  {
    var vm := Numbered();
    var it := vm.Registers();
    yielded := Drain(it);
  }

  /** A new VM whose register i holds i, as the iterator test sets it up. */
  method Numbered() returns (vm: VM)
    ensures fresh(vm) && fresh(vm.registers) && vm.Valid()
    ensures forall k :: 0 <= k < REGISTER_COUNT ==> vm.registers[k] == k
  {
    vm := new VM();
    for i := 0 to REGISTER_COUNT
      invariant vm.Valid() && fresh(vm.registers)
      invariant forall k :: 0 <= k < i ==> vm.registers[k] == k
    {
      vm.registers[i] := i;
    }
  }

  /** The test's `for` loop: everything the iterator yields, in order, until it yields None. */
  method Drain(it: RegisterIterator) returns (yielded: seq<Int32>)
    requires it.Valid()
    modifies it
    ensures yielded == old(it.Remaining())
  {
    yielded := [];
    var r := it.Next();
    while r.Some?
      invariant it.Valid()
      invariant r.Some? ==> yielded + [r.value] + it.Remaining() == old(it.Remaining())
      invariant r.None? ==> yielded == old(it.Remaining())
      decreases |it.Remaining()|, r.Some?
    {
      yielded := yielded + [r.value];
      r := it.Next();
    }
  }
}
