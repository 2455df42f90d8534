# Iridium VM in Dafny

A model of the core of Iridium, a small register-based virtual machine
written in Rust, together with its assembler. It covers:

- **Opcodes** (`src/opcode.rs`, module `Opcodes`). There are 18 legal
  opcodes plus IGL. The model covers their byte codes, decoding a byte and
  reading a mnemonic case-insensitively. Anything unknown becomes IGL.
- **Tokens, instructions and programs**, in four modules:
  - `Tokens` models `src/assembler/token.rs`.
  - `Instructions` models `src/assembler/assembly_instruction.rs`.
  - `Programs` models `src/assembler/program.rs`.
  - `LegacyAssembler` models the older copies of the same types in
    `src/assembler/mod.rs`.

  A token becomes one or two bytes. An instruction becomes its opcode byte,
  then its operand bytes, padded with 0xFF to four bytes. A program is its
  instructions' bytes concatenated. The encoders that loop are methods with
  loop invariants. Each is proved equal to a function that states its result.
- **The parser** (`src/assembler/parsers.rs`, modules `Text` and
  `Parsers`). These are nom combinators over strings. A parser either
  returns the unconsumed rest and a value, or gives a recoverable `Error`,
  or gives a `cut` `Failure`. An `Overflow` result stands for the panic of
  `parse().unwrap()` on an out-of-range number. Module `Rendering` prints
  any instruction of the five accepted forms. It is proved that
  `parse_instruction` and `parse_program` read the printed text back
  exactly.
- **The machine** (`src/vm.rs`).
  - Module `Semantics` gives one fetch-decode-execute step as a function on
    the machine's fields. Each of the source's panics is a `Fault`: a
    register index of 32 or more, reading past the program, `i32`
    overflow, division by zero, and `usize` overflow or underflow of `pc`.
  - Module `VirtualMachine` is the `VM` struct as a class, with a register
    array and methods that update it in place. Every method is proved to
    agree with `Semantics`. The class also includes the `Registers`
    iterator.
- **The unit tests.** Every `#[test]` of the modelled files is stated as a
  lemma or a method whose contract is what the test asserts, except for the
  byte tables of `test_opcode_from_u8`, `test_opcode_as_u8` (src/opcode.rs)
  and `test_token_to_bytes` (src/assembler/token.rs), which are the
  contracts of `Opcodes.FromByte`, `Opcodes.Code` and `Tokens.Token.ToBytes`
  themselves. The tests of `parse_instruction0` to `parse_instruction4` and
  `parse_program` are in module `ParserExamples`. They use the general
  round trip of `Rendering`, applied to the test's own text.
- **Assembler and machine together** (module `Pipeline`). Printing
  `LOAD $r #v` and parsing it gives the instruction back. Encoding gives
  four bytes. Running them leaves `v mod 65536` in register `r`, because
  the encoder keeps only the low 16 bits.

## Model

| member | source | states |
|---|---|---|
| Opcodes.Code | src/opcode.rs:4-84 | the declared discriminant of every opcode (HLT 0 … ALOC 17, IGL 255) |
| Opcodes.FromByte | src/opcode.rs:86-93 | a declared byte decodes to its opcode; any other byte decodes to IGL |
| Opcodes.CodeRoundTrip | src/opcode.rs:80-93 | decoding an opcode's code gives the opcode back |
| Opcodes.CodeInjective | src/opcode.rs:4-68 | distinct opcodes have distinct codes |
| Opcodes.ByteRoundTrip | src/opcode.rs:80-93 | encoding a decoded byte gives the byte back below 18, and 255 otherwise |
| Opcodes.Mnemonic | src/opcode.rs:97-115 | the spelling each opcode is recognised by: two to four capital letters |
| Opcodes.UpperCase | src/opcode.rs:97 | `to_uppercase` on ASCII letters: same length, letters capitalised, everything else kept |
| Opcodes.LowerCase | src/opcode.rs:184-203 | the lower-case spelling the tests use: same length, capitals made small, everything else kept |
| Opcodes.FromMnemonic | src/opcode.rs:95-119 | a legal opcode is given only for a word whose upper-case form is that opcode's mnemonic |
| Opcodes.LookUp | src/opcode.rs:97-117 | the `match` on the upper-cased word: a legal opcode only for the word that is its mnemonic |
| Opcodes.MnemonicInjective | src/opcode.rs:98-115 | distinct opcodes have distinct mnemonics |
| Opcodes.DeclaredDistinct | src/opcode.rs:4-68 | each legal opcode is declared exactly once |
| Opcodes.LookUpFinds | src/opcode.rs:97-115 | the lookup finds the opcode whose mnemonic the word is |
| Opcodes.LookUpMisses | src/opcode.rs:116 | the lookup gives IGL when no mnemonic matches |
| Opcodes.UnknownMnemonic | src/opcode.rs:116 | a word whose upper-case form is no mnemonic maps to IGL |
| Opcodes.MnemonicRoundTrip | src/opcode.rs:95-119 | every opcode is recovered from its mnemonic |
| Opcodes.MnemonicCaseInsensitive | src/opcode.rs:97 | a word, its upper-case form and its lower-case form map to the same opcode |
| Opcodes.LowerCaseMnemonic | src/opcode.rs:182-203 | the lower-case mnemonic is recognised as well |
| Opcodes.SpelledAs | src/opcode.rs:95-119 | a word whose upper-case form is a mnemonic maps to that mnemonic's opcode |
| Opcodes.MnemonicExamples | src/assembler/parsers.rs:228-245 | each of the 18 spellings of the test, in the letter case the test writes it, maps to the opcode the test expects |
| Opcodes.TestSpelling | src/assembler/parsers.rs:228-245 | each spelling of the test upper-cases to the mnemonic of the opcode it is paired with |
| Opcodes.MoreMnemonicExamples | src/opcode.rs:184-187 | the test's "hlt" and "add" give HLT and ADD ("hehehe" is `Opcodes.LongWordIsIllegal`; every lower-case mnemonic is `Opcodes.LowerCaseMnemonic`) |
| Opcodes.LongWordIsIllegal | src/opcode.rs:185 | any word longer than four characters, such as "hehehe", gives IGL |
| Tokens.Token.ToBytes | src/assembler/token.rs:15-29 | an opcode gives its code; a register gives its index; an integer gives the high byte then the low byte of its low 16 bits; any other token is the `unimplemented!()` error |
| Tokens.TokenWidth | src/assembler/token.rs:15-26 | opcodes and registers take one byte, integers two |
| Tokens.IntegerRoundTrip | src/assembler/token.rs:23-26 | an integer in 0..65535 is recovered from its two bytes |
| Tokens.NegativeIntegerExample | src/assembler/token.rs:24 | -1 encodes as [0xFF, 0xFF] and 65536 + 500 as [1, 244]: the `as u16` truncation |
| Instructions.AssemblyInstruction.ToBytes | src/assembler/assembly_instruction.rs:24-47 | the loop over the operands and the padding loop produce exactly `Encoding`, including its errors |
| Instructions.Pad | src/assembler/assembly_instruction.rs:41-44 | the padding loop appends 0xFF until four bytes, and never truncates |
| Instructions.Padded | src/assembler/assembly_instruction.rs:41-44 | the result has length max(4, n), keeps the input as a prefix and is 0xFF after it |
| Instructions.OperandBytesOk | src/assembler/assembly_instruction.rs:34-39 | the operand bytes exist exactly when every present token is encodable; their length is the sum of the tokens' widths |
| Instructions.OperandBytesError | src/assembler/assembly_instruction.rs:34-39 | the first operand that cannot be encoded is the one whose error is reported |
| Instructions.EncodingOk | src/assembler/assembly_instruction.rs:24-47 | encoding fails exactly when the opcode is missing or a present token is not encodable; a missing opcode is the early exit |
| Instructions.EncodingStartsWithOpcode | src/assembler/assembly_instruction.rs:26-27 | the first byte is the opcode's code |
| Instructions.EncodingLayout | src/assembler/assembly_instruction.rs:26-44 | the opcode's bytes come first, then the operands' bytes in order, then only padding |
| Instructions.EncodingLength | src/assembler/assembly_instruction.rs:24-47 | the length is the larger of 4 and the tokens' widths: 4 to 8 bytes, at most 7 when the opcode field holds an opcode |
| Instructions.LabelAndDirectiveIgnored | src/assembler/assembly_instruction.rs:24-47 | the label and directive fields do not change the bytes |
| Instructions.TwoOperands | src/assembler/assembly_instruction.rs:24-47 | an opcode and two encodable operands give their bytes in order, padded |
| Instructions.EncodingExamples | src/assembler/assembly_instruction.rs:65-71 | `LOAD $10 #99` encodes as [1, 10, 0, 99] |
| Instructions.PaddingExample | src/assembler/assembly_instruction.rs:73-79 | `EQ $10 $20` encodes as [9, 10, 20, 0xFF] |
| Programs.Program.ToBytes | src/assembler/program.rs:14-20 | the loop produces exactly the concatenation of the instructions' encodings, or the first error |
| Programs.Parts | src/assembler/program.rs:16-18 | one encoding per instruction, in program order |
| Programs.ConcatenationStep | src/assembler/program.rs:16-18 | one more instruction either propagates the error or appends its bytes |
| Programs.ConcatenationPrefixError | src/assembler/program.rs:16-18 | the first instruction that fails decides the program's error |
| Programs.ConcatenationOk | src/assembler/program.rs:16-18 | the program encodes exactly when every instruction does; its length is then the sum of theirs |
| Programs.ConcatenationAppend | src/assembler/program.rs:16-18 | concatenation distributes over appending instruction lists |
| Programs.UniformConcatenation | src/assembler/program.rs:16-18 | with four-byte parts the whole takes 4·n bytes, and part i is at offset 4·i |
| Programs.EncodingOk | src/assembler/program.rs:14-20 | a program encodes exactly when every instruction does, to the sum of their lengths |
| Programs.EmptyProgram | src/assembler/program.rs:14-20 | an empty program gives no bytes |
| Programs.EncodingAppend | src/assembler/program.rs:14-20 | encoding two instruction lists in a row gives their bytes in a row |
| Programs.UniformLayout | src/assembler/program.rs:14-20 | four-byte instructions give 4·n bytes, with instruction i at bytes 4·i up to 4·i + 4 |
| Programs.TwoLoads | src/assembler/program.rs:26-49 | two LOADs give their two encodings back to back ([1, 0, 0, 100, 1, 1, 0, 200] in the test) |
| Programs.LoadEncoding | src/assembler/program.rs:31-36 | `LOAD $r #v` with v in 0..65535 encodes as [1, r, v / 256, v % 256] |
| Programs.ToBytesExample | src/assembler/program.rs:26-49 | `to_bytes` of the test's two LOADs, with an empty symbol table, gives [1, 0, 0, 100, 1, 1, 0, 200] |
| LegacyAssembler.Token.ToBytes | src/assembler/mod.rs:19-34 | every token has bytes: an opcode its code, a register its index, an integer the high and low byte of its low 16 bits |
| LegacyAssembler.AssemblyInstruction.ToBytes | src/assembler/mod.rs:45-70 | the two loops produce the opcode byte, the operand bytes and padding; a non-opcode in the opcode field is the exit |
| LegacyAssembler.TokenAgrees | src/assembler/mod.rs:19-34 | each older token encodes like its counterpart in token.rs |
| LegacyAssembler.OperandBytesAgree | src/assembler/mod.rs:56-61 | the older operand bytes are the newer ones, and always exist |
| LegacyAssembler.EncodingAgrees | src/assembler/mod.rs:45-70 | with an opcode in the opcode field, the older encoder gives the newer one's bytes; otherwise it stops |
| LegacyAssembler.EncodingLayout | src/assembler/mod.rs:45-70 | the opcode byte comes first, then the operand bytes in order, then 0xFF up to four bytes |
| LegacyAssembler.Program.ToBytes | src/assembler/mod.rs:79-87 | the loop concatenates the instructions' bytes, or stops at the first bad opcode field |
| LegacyAssembler.ProgramAgrees | src/assembler/mod.rs:79-87 | a program whose opcode fields all hold opcodes encodes like the newer program encoder |
| LegacyAssembler.Examples | src/assembler/mod.rs:93-128 | the token and instruction examples of the tests |
| LegacyAssembler.TwoLoads | src/assembler/mod.rs:130-152 | the two-LOAD program gives [1, 0, 0, 100, 1, 1, 0, 200] |
| Text.ClassesAndWhitespace | src/assembler/parsers.rs:3 | multispace characters are whitespace to `trim`; letters and digits are neither |
| Text.RunLength | src/assembler/parsers.rs:3 | the length of the longest prefix in a character class |
| Text.RunLengthSpec | src/assembler/parsers.rs:3 | that prefix is maximal: all of it is in the class, and the next character is not |
| Text.RunLengthConcat | src/assembler/parsers.rs:3 | a run followed by a character outside the class has exactly the run's length |
| Text.TrimStart | src/assembler/parsers.rs:18 | `trim_start`: never longer than its input (its meaning is `Text.TrimStartSpec`) |
| Text.TrimEnd | src/assembler/parsers.rs:18 | `trim_end`: never longer than its input (its meaning is `Text.TrimEndSpec`) |
| Text.Trim | src/assembler/parsers.rs:18 | `str::trim`: never longer than its input (its meaning is `Text.TrimSpec`) |
| Text.TrimStartSpec | src/assembler/parsers.rs:18 | the longest all-whitespace prefix is dropped |
| Text.TrimEndSpec | src/assembler/parsers.rs:18 | the longest all-whitespace suffix is dropped |
| Text.TrimSpec | src/assembler/parsers.rs:18 | the result is a contiguous piece of the input that does not start or end with whitespace, and everything dropped is whitespace |
| Text.TrimUnchanged | src/assembler/parsers.rs:18 | text that neither starts nor ends with whitespace is unchanged |
| Text.TrimStartSkips | src/assembler/parsers.rs:18 | leading whitespace before a non-whitespace character is all that is dropped |
| Text.TrimEndSkips | src/assembler/parsers.rs:18 | trailing whitespace after a non-whitespace character is all that is dropped |
| Text.TrimAround | src/assembler/parsers.rs:18 | trimming removes exactly the whitespace around such a text |
| Text.TrimKeepsFirst | src/assembler/parsers.rs:18 | a leading non-whitespace character survives trimming |
| Text.TrimmedEnds | src/assembler/parsers.rs:18 | a non-empty text that is its own trim neither starts nor ends with whitespace |
| Text.MiddlePiece | src/assembler/parsers.rs:18 | a prefix of a suffix is a slice of the text, and whitespace after the prefix is whitespace of the text |
| Text.TrimIdempotent | src/assembler/parsers.rs:28 | trimming twice is trimming once (parsers trim text that was already trimmed) |
| Text.DigitValue | src/assembler/parsers.rs:27 | the value of an ASCII digit, below ten |
| Text.DigitChar | src/assembler/parsers.rs:27 | the digit for a value below ten, whose value it is |
| Text.DecimalString | src/assembler/parsers.rs:27 | a decimal spelling: non-empty and all digits (it reads back by `Text.DecimalRoundTrip`) |
| Text.DecimalRoundTrip | src/assembler/parsers.rs:27 | reading back the spelling of n gives n |
| Text.LeadingZero | src/assembler/parsers.rs:27 | a leading zero does not change the value |
| Parsers.Take1 | src/assembler/parsers.rs:3 | `alpha1`/`digit1`/`alphanumeric1`/`multispace1`: fails on an empty run, otherwise splits off the whole run |
| Parsers.Tag | src/assembler/parsers.rs:2 | `tag` of one character: consumes it, or gives a recoverable error |
| Parsers.ParseOpcode | src/assembler/parsers.rs:17-20 | consumes something and gives an opcode token |
| Parsers.ParseOpcodeSpec | src/assembler/parsers.rs:17-20 | succeeds exactly when the trimmed input starts with a letter; consumes the whole run of letters, reads it as a mnemonic and leaves the rest |
| Parsers.ParseRegister | src/assembler/parsers.rs:24-29 | consumes something and gives a register token |
| Parsers.ParseRegisterSpec | src/assembler/parsers.rs:24-29 | no `$` gives Error; `$` with no digit gives Failure; otherwise the whole run of digits is read, and a value over 255 is the unwrap panic |
| Parsers.ParseNumber | src/assembler/parsers.rs:32-37 | consumes something and gives an integer token |
| Parsers.ParseNumberSpec | src/assembler/parsers.rs:32-37 | the input is not trimmed; no `#` gives Error; `#` with no digit gives Failure; the run of digits is read, and a value over `i32::MAX` is the panic |
| Parsers.ParseOperand | src/assembler/parsers.rs:40-42 | consumes something and gives a number or a register |
| Parsers.ParseOperandSpec | src/assembler/parsers.rs:40-42 | a number when the trimmed input starts with `#`, a register with `$`, otherwise a recoverable error |
| Parsers.ParseLabelDeclaration | src/assembler/parsers.rs:46-51 | consumes something and gives a label declaration |
| Parsers.ParseLabelDeclarationSpec | src/assembler/parsers.rs:46-51 | a non-empty letters-and-digits name directly followed by `:` |
| Parsers.ParseLabelUsage | src/assembler/parsers.rs:54-59 | consumes something and gives a label usage |
| Parsers.ParseLabelUsageSpec | src/assembler/parsers.rs:54-59 | `@` then the whole run of letters and digits, at least one |
| Parsers.ParseDirectiveDeclaration | src/assembler/parsers.rs:62-67 | consumes something and gives a directive |
| Parsers.ParseDirectiveDeclarationSpec | src/assembler/parsers.rs:62-67 | `.` then the whole run of letters and digits, at least one |
| Parsers.SkipSpace | src/assembler/parsers.rs:115-116 | `preceded(multispace1, …)`: at least one whitespace character is skipped |
| Parsers.OptionalOperands | src/assembler/parsers.rs:75-77 | `opt(parse_operand)` n times: n results, with the rest never longer than the input |
| Parsers.ParseDirectiveCombined | src/assembler/parsers.rs:71-94 | no opcode; an optional label declaration; a directive; operands that are numbers or registers, with none present after an absent one |
| Parsers.DirectiveOperands | src/assembler/parsers.rs:75-91 | the instruction built after the label and directive has their values and well-shaped operands |
| Parsers.AbsentOperandsStayAbsent | src/assembler/parsers.rs:75-77 | once an optional operand is absent nothing was consumed, so every later one is absent too |
| Parsers.OptionalOperandsCons | src/assembler/parsers.rs:75-77 | one step of the optional operands |
| Parsers.OptionalOperandsShape | src/assembler/parsers.rs:75-77 | the optional operands are numbers or registers, and none is present after an absent one |
| Parsers.PresentOperandShape | src/assembler/parsers.rs:75-77 | the same when the first operand is present |
| Parsers.ShapeCons | src/assembler/parsers.rs:75-77 | a present operand in front of well-shaped operands keeps them well shaped |
| Parsers.AllAbsentShape | src/assembler/parsers.rs:75-77 | operands that are all absent are well shaped |
| Parsers.ParseOperandOf | src/assembler/parsers.rs:115-116 | `parse_register` or `parse_number`, giving a token of the requested kind |
| Parsers.Operands | src/assembler/parsers.rs:113-117 | one operand per requested kind; something is consumed unless no operand is requested |
| Parsers.OperandsCons | src/assembler/parsers.rs:113-117 | one step: whitespace, an operand of the first kind, then the others |
| Parsers.OperandsKinds | src/assembler/parsers.rs:113-117 | each operand has the kind asked for |
| Parsers.KindsCons | src/assembler/parsers.rs:113-117 | a token of the first kind in front of tokens of the remaining kinds has all the kinds, in order |
| Parsers.ParseForm | src/assembler/parsers.rs:112-197 | an opcode followed by operands of the given kinds; a success consumes part of the trimmed input (its result's shape is `Parsers.FormShape`) |
| Parsers.ParseInstruction0 | src/assembler/parsers.rs:97-108 | the opcode-only form; a success consumes part of the trimmed input |
| Parsers.ParseInstruction1 | src/assembler/parsers.rs:112-131 | the opcode-register-number form; a success consumes part of the trimmed input |
| Parsers.ParseInstruction2 | src/assembler/parsers.rs:135-156 | the three-register form; a success consumes part of the trimmed input |
| Parsers.ParseInstruction3 | src/assembler/parsers.rs:160-179 | the two-register form; a success consumes part of the trimmed input |
| Parsers.ParseInstruction4 | src/assembler/parsers.rs:183-197 | the one-register form; a success consumes part of the trimmed input |
| Parsers.ParseInstruction | src/assembler/parsers.rs:201-211 | `alt` of forms 1, 2, 3, 4 and 0: a success always consumes something, which is what lets `many1` end |
| Parsers.FormShape | src/assembler/parsers.rs:112-197 | each form yields an instruction of that form |
| Parsers.InstructionShape | src/assembler/parsers.rs:201-211 | every parsed instruction has one of the five forms |
| Parsers.Many1 | src/assembler/parsers.rs:215 | `many1`: a success holds at least one instruction and has consumed something |
| Parsers.Many | src/assembler/parsers.rs:215 | the `many1` loop: the rest never grows and instructions are only added (its turns are `Parsers.ManyCases`) |
| Parsers.ParseProgram | src/assembler/parsers.rs:214-219 | trims, then `many1(parse_instruction)`; a success consumes part of the trimmed text |
| Parsers.ManyCases | src/assembler/parsers.rs:215 | the loop stops with what it has at a recoverable error, continues after an instruction that consumed something, and succeeds only in those cases |
| Parsers.ManyStopsAtError | src/assembler/parsers.rs:215 | the loop stops exactly where no further instruction parses, and every instruction collected is well formed |
| Parsers.WellFormedAppend | src/assembler/parsers.rs:215 | collecting one more well-formed instruction keeps every collected instruction well formed |
| Parsers.ProgramShape | src/assembler/parsers.rs:214-219 | a parsed program has at least one instruction, all well formed, and parsing stopped where no further instruction parses |
| Parsers.ProgramFrom | src/assembler/parsers.rs:214-219 | a first instruction and the loop after it make up the parsed program |
| Parsers.ProgramSteps | src/assembler/parsers.rs:214-219 | a parsed program is the loop of `many1` after a first instruction |
| Parsers.ProgramNeedsAnInstruction | src/assembler/parsers.rs:214-219 | the first instruction decides whether a program parses at all |
| Parsers.OpcodeWord | src/assembler/parsers.rs:17-20 | a word of letters followed by a non-letter reads as the opcode it names |
| Parsers.RegisterDigits | src/assembler/parsers.rs:24-29 | `$` and a run of digits followed by a non-digit read as that register |
| Parsers.MarkedDigitsTrimmed | src/assembler/parsers.rs:28 | a marker, digits and text that does not end in whitespace are unchanged by trimming |
| Parsers.RegisterSteps | src/assembler/parsers.rs:24-29 | on trimmed text: the `$`, then the digits, then the register |
| Parsers.DigitRun | src/assembler/parsers.rs:26 | `digit1` takes the whole run of digits and stops at the first non-digit |
| Parsers.NumberDigits | src/assembler/parsers.rs:32-37 | `#` and a run of digits followed by a non-digit read as that number |
| Parsers.OpcodeExamples | src/assembler/parsers.rs:228-245 | each of the 18 spellings of the test parses whole to the opcode token the test expects, leaving "" |
| Parsers.SpellingLetters | src/assembler/parsers.rs:19 | a spelling of a mnemonic in any letter case is a word of at least two letters, which `alpha1` takes whole |
| Parsers.OpcodeStopsExample | src/assembler/parsers.rs:248-251 | "hlt bla bla" gives HLT and leaves " bla bla" |
| Parsers.RegisterZeroExample | src/assembler/parsers.rs:256 | "$0" gives register 0 |
| Parsers.RegisterStopsExample | src/assembler/parsers.rs:257-260 | "$31 #999" gives register 31 and leaves " #999" |
| Parsers.RegisterFailureExample | src/assembler/parsers.rs:261-264 | "$a $b" fails at "a $b" |
| Parsers.NumberExample | src/assembler/parsers.rs:269 | "#500" gives 500 |
| Parsers.NumberStopsExample | src/assembler/parsers.rs:270-273 | "#1000 ;1k" gives 1000 and leaves " ;1k" |
| Parsers.NumberOperandExample | src/assembler/parsers.rs:277 | " #99 " gives 99 |
| Parsers.RegisterOperandExample | src/assembler/parsers.rs:278 | " $23 " gives register 23 |
| Parsers.LabelWord | src/assembler/parsers.rs:46-51 | a name and a colon read as a label declaration |
| Parsers.MarkedWord | src/assembler/parsers.rs:54-67 | a name after its marker fills the whole trimmed text |
| Parsers.LabelUsageWord | src/assembler/parsers.rs:54-59 | `@` and a name read as a label usage |
| Parsers.DirectiveWord | src/assembler/parsers.rs:62-67 | `.` and a name read as a directive |
| Parsers.LabelDeclarationExample | src/assembler/parsers.rs:282-287 | "label1: " gives the label declaration "label1" |
| Parsers.LabelUsageExample | src/assembler/parsers.rs:290-295 | "@label1" gives the label usage "label1" |
| Parsers.DirectiveExample | src/assembler/parsers.rs:298-303 | ".code " gives the directive "code" |
| Parsers.DirectiveCombinedStep | src/assembler/parsers.rs:71-94 | one successful run, step by step |
| Parsers.CombinedLabelExample | src/assembler/parsers.rs:306-321 | the label part of the combined example |
| Parsers.CombinedDirectiveExample | src/assembler/parsers.rs:306-321 | the directive part of the combined example |
| Parsers.DirectiveCombinedExample | src/assembler/parsers.rs:306-321 | "test1: .asciiz " gives label test1, directive asciiz and nothing else |
| Rendering.OperandText | src/assembler/parsers.rs:24-37 | `$` or `#` and the shortest decimal spelling |
| Rendering.OperandsText | src/assembler/parsers.rs:113-117 | each operand after one space |
| Rendering.Present | src/assembler/parsers.rs:112-197 | the operands an instruction holds: at most three |
| Rendering.KindsOf | src/assembler/parsers.rs:112-197 | one kind per operand, in order: a register or a number |
| Rendering.Canonical | src/assembler/parsers.rs:201-211 | the upper-case mnemonic with one space before each operand is a layout that fits every printable instruction |
| Rendering.Render | src/assembler/parsers.rs:201-211 | the mnemonic as the layout spells it, then each operand after its gap: starts with a letter and ends in no whitespace |
| Rendering.Lines | src/assembler/parsers.rs:214-219 | each instruction after its separator: the text is empty, or is whitespace that `multispace1` takes, then a letter, and does not end in whitespace |
| Rendering.RenderProgram | src/assembler/parsers.rs:214-219 | the first instruction, then the others after their separators: at least two characters, starting with a letter |
| Rendering.LineFollows | src/assembler/parsers.rs:214-219 | a separator and a printed instruction may follow a printed instruction |
| Rendering.TextTrimmed | src/assembler/parsers.rs:215 | printed instructions after their separators have nothing to trim |
| Rendering.SkipGap | src/assembler/parsers.rs:115-116 | `multispace1` consumes a whole gap and stops at the next non-space |
| Rendering.FollowsSplit | src/assembler/parsers.rs:215 | what may follow an instruction is its whitespace and then a letter |
| Rendering.FollowsSeparated | src/assembler/parsers.rs:113-117 | what may follow an instruction may follow a printed operand |
| Rendering.SeparatedAfter | src/assembler/parsers.rs:113-117 | printed operands followed by such text may themselves follow a printed token |
| Rendering.RegisterTextParses | src/assembler/parsers.rs:24-29 | a printed register reads back as itself |
| Rendering.NumberTextParses | src/assembler/parsers.rs:32-37 | a printed number reads back as itself |
| Rendering.OperandTextParses | src/assembler/parsers.rs:24-37 | a printed operand reads back as itself, stopping where it ends |
| Rendering.OperandTextMismatch | src/assembler/parsers.rs:24-37 | an operand of the other kind is a recoverable error |
| Rendering.LetterIsNoOperand | src/assembler/parsers.rs:24-37 | text that starts with a letter is no operand |
| Rendering.OpcodeParses | src/assembler/parsers.rs:17-20 | a printed mnemonic reads back as its opcode |
| Rendering.OperandsTextCons | src/assembler/parsers.rs:113-117 | the first printed operand, then the others |
| Rendering.PrintedOperandStep | src/assembler/parsers.rs:113-117 | one step over a printed operand |
| Rendering.OperandsParse | src/assembler/parsers.rs:113-117 | printed operands read back in order, each of its own kind |
| Rendering.NoOperandFollows | src/assembler/parsers.rs:113-117 | past the last printed operand, another operand is a recoverable error |
| Rendering.OperandsMismatch | src/assembler/parsers.rs:113-117 | operands of other kinds than those printed give a recoverable error |
| Rendering.FormOf | src/assembler/parsers.rs:112-197 | the five forms, by the kinds of their operands |
| Rendering.Refill | src/assembler/parsers.rs:112-197 | filling the operand fields from the left gives the instruction back |
| Rendering.RenderCons | src/assembler/parsers.rs:201-211 | the mnemonic, then the operands |
| Rendering.FormStep | src/assembler/parsers.rs:112-197 | one form: the opcode, then its operands |
| Rendering.FormStepError | src/assembler/parsers.rs:112-197 | a form whose operands do not parse gives a recoverable error |
| Rendering.FormParses | src/assembler/parsers.rs:112-197 | the form of a printed instruction reads it back |
| Rendering.FormMismatch | src/assembler/parsers.rs:112-197 | a form whose kinds are not a prefix of the printed ones gives a recoverable error |
| Rendering.KindsOfTail | src/assembler/parsers.rs:113-117 | the kinds of the operands after the first are the kinds after the first |
| Rendering.PrefixCons | src/assembler/parsers.rs:112-197 | a shared first kind and a prefix of the rest make a prefix |
| Rendering.InstructionParses | src/assembler/parsers.rs:201-211 | `parse_instruction` reads any printed instruction back, because every form tried earlier fails recoverably |
| Rendering.InstructionReadBack | src/assembler/parsers.rs:97-211 | an instruction printed in any layout, with any whitespace around it, reads back whole, through its own form and through `parse_instruction` |
| Rendering.NotRegisterNumber | src/assembler/parsers.rs:112-131 | only the ($r #n) form starts with a register and then a number |
| Rendering.ManyStep | src/assembler/parsers.rs:215 | one turn of the `many1` loop |
| Rendering.NothingAtTheEnd | src/assembler/parsers.rs:215 | no instruction parses from the end of the text |
| Rendering.LinesParse | src/assembler/parsers.rs:215 | the loop reads every printed line back and stops at the end |
| Rendering.LineTrimmed | src/assembler/parsers.rs:215 | a printed line trims to the instruction and what follows it |
| Rendering.GapIsBlank | src/assembler/parsers.rs:18 | whitespace that `multispace1` takes is whitespace that `str::trim` drops |
| Rendering.TrimToText | src/assembler/parsers.rs:215-216 | a program text with whitespace around it trims to the instructions, which trim to themselves |
| Rendering.FirstLineParses | src/assembler/parsers.rs:215-216 | the first instruction of such a text reads back and leaves the other lines |
| Rendering.ProgramParses | src/assembler/parsers.rs:214-219 | `parse_program` reads a printed program back and consumes all of it |
| ParserExamples.ReadsBack | src/assembler/parsers.rs:97-211 | a printed instruction of one of the five forms, with blank text around it, reads back through its form and through `parse_instruction` |
| ParserExamples.BareReadsBack | src/assembler/parsers.rs:97-108 | an opcode alone, spelled in any case, reads back through `parse_instruction0` and `parse_instruction` |
| ParserExamples.RegisterNumberReadsBack | src/assembler/parsers.rs:112-131 | an opcode, a register and a non-negative number, with any gaps, read back through `parse_instruction1` and `parse_instruction` |
| ParserExamples.ThreeRegistersReadsBack | src/assembler/parsers.rs:135-156 | an opcode and three registers, with any gaps, read back through `parse_instruction2` and `parse_instruction` |
| ParserExamples.TwoRegistersReadsBack | src/assembler/parsers.rs:160-179 | an opcode and two registers, with any gaps, read back through `parse_instruction3` and `parse_instruction` |
| ParserExamples.OneRegisterReadsBack | src/assembler/parsers.rs:183-197 | an opcode and one register, with any gaps, read back through `parse_instruction4` and `parse_instruction` |
| ParserExamples.Instruction0Example | src/assembler/parsers.rs:323-336 | "  hlt\t\n  " gives HLT and leaves "" |
| ParserExamples.Instruction1Example | src/assembler/parsers.rs:338-353 | "  load   $9   #299  \t\n" gives LOAD $9 #299 and leaves "" |
| ParserExamples.Instruction2Example | src/assembler/parsers.rs:355-371 | "  add $0 $1 $3 \t\n  " gives ADD $0 $1 $3 and leaves "" |
| ParserExamples.Instruction3Example | src/assembler/parsers.rs:373-388 | "  EQ $0 $1 \t\n  " gives EQ $0 $1 and leaves "" |
| ParserExamples.Instruction4Example | src/assembler/parsers.rs:390-404 | "  jmp $30  \t\n  " gives JMP $30 and leaves "" |
| ParserExamples.LinesJoined | src/assembler/parsers.rs:214-219 | the instructions after their separators print as their lines, each after its separator |
| ParserExamples.ProgramJoined | src/assembler/parsers.rs:214-219 | a program prints as its first line, then the other lines after their separators |
| ParserExamples.SixLinesParse | src/assembler/parsers.rs:214-219 | six printed instructions, the first after blank text and each other after the same separator, with blank text at the end, parse whole to those six instructions |
| ParserExamples.ProgramExample | src/assembler/parsers.rs:406-482 | the test's six-line program text parses whole, leaving "", to LOAD $0 #100, LOAD $1 #200, ADD $0 $1 $2, JMP $9, EQ $0 $2 and HLT |
| Base.BigEndian16 | src/vm.rs:234-238 | two bytes, most significant first, make a value below 65536 |
| Semantics.New | src/vm.rs:27-35 | all registers 0, `pc` 0, no program, remainder 0, flag clear |
| Semantics.AsU32 | src/vm.rs:109 | `as u32`: identity on non-negative values, plus 2^32 on negative ones |
| Semantics.AsUsize | src/vm.rs:113 | `as usize`: identity on non-negative values, plus 2^64 on negative ones |
| Semantics.Loaded | src/vm.rs:295-298 | a new machine holding the given program: registers 0, `pc` 0, remainder 0, flag clear |
| Semantics.TruncDiv | src/vm.rs:108 | Rust's `/`: the magnitude is the magnitudes' quotient rounded down, and the sign is positive exactly when the operands' signs agree |
| Semantics.TruncRem | src/vm.rs:109 | Rust's `%`: smaller than the divisor in magnitude, with the dividend's sign |
| Semantics.TruncDivSpec | src/vm.rs:108-109 | quotient and remainder rebuild the dividend; the remainder is smaller than the divisor in magnitude and has the dividend's sign |
| Semantics.Magnitudes | src/vm.rs:108-109 | the truncated quotient and remainder come from the magnitudes' quotient and remainder |
| Semantics.Signs | src/vm.rs:108-109 | putting the signs back on them rebuilds the dividend |
| Semantics.QuotientBound | src/vm.rs:108 | a quotient is never larger than its dividend in magnitude |
| Semantics.DivisionOverflow | src/vm.rs:108 | `i32` division overflows only for `i32::MIN / -1` |
| Semantics.Checked | src/vm.rs:90-108 | an `i32` result exactly when the value fits, otherwise the overflow panic |
| Semantics.Fetch8 | src/vm.rs:228-232 | the byte at `pc` with `pc` moved by 1 when it exists, otherwise the overrun panic |
| Semantics.Fetch16 | src/vm.rs:234-238 | the two bytes at `pc` as a big-endian value below 65536 with `pc` moved by 2, otherwise the overrun panic |
| Semantics.Read | src/vm.rs:91 | the register's value when the index is below 32, otherwise the out-of-bounds panic |
| Semantics.Write | src/vm.rs:88 | only the named register changes, to the new value; an index of 32 or more panics |
| Semantics.FetchRegisterSpec | src/vm.rs:91 | reading the register named by the next byte fails exactly when the byte is missing (overrun) or is 32 or more |
| Semantics.Load | src/vm.rs:82-89 | the LOAD arm keeps the program and does not report done |
| Semantics.Arithmetic | src/vm.rs:90-104 | the ADD, SUB and MUL arms keep the program and do not report done |
| Semantics.Divide | src/vm.rs:105-110 | the DIV arm keeps the program and does not report done |
| Semantics.Compare | src/vm.rs:130-207 | the comparison arms keep the program and do not report done |
| Semantics.Jump | src/vm.rs:111-122 | the jump arms keep the program and do not report done |
| Semantics.ConditionalJump | src/vm.rs:208-219 | the JEQ and JNEQ arms keep the program and do not report done |
| Semantics.Step | src/vm.rs:71-226 | a step keeps 32 registers and the program |
| Semantics.Execute | src/vm.rs:77-224 | each arm keeps 32 registers and the program |
| Semantics.Run | src/vm.rs:48-53 | a bounded run keeps 32 registers and the program |
| Semantics.StopsExactly | src/vm.rs:71-81 | a step reports done exactly past the end of the program, on HLT, and on ALOC or IGL |
| Semantics.EndOfProgram | src/vm.rs:72-74 | with `pc` at or past the end, a step is done and changes nothing |
| Semantics.HaltSpec | src/vm.rs:78-81 | HLT, ALOC and IGL are done with `pc` one further and nothing else changed |
| Semantics.LoadArm | src/vm.rs:82-89 | after the opcode, LOAD succeeds exactly when three bytes follow and the register exists |
| Semantics.LoadSpec | src/vm.rs:82-89 | LOAD r hi lo sets reg[r] to hi·256 + lo and `pc` to pc + 4; a short program or a bad register is a panic |
| Semantics.ArithmeticArm | src/vm.rs:90-104 | after the opcode, the arithmetic arm's outcome on every input |
| Semantics.ArithmeticSpec | src/vm.rs:90-104 | reg[r3] gets reg[r1] op reg[r2] and `pc` moves 4; missing bytes, bad registers and `i32` overflow (checked before the destination byte is read) are panics |
| Semantics.DivideArm | src/vm.rs:105-110 | after the opcode, the DIV arm's outcome on every input |
| Semantics.DivideSpec | src/vm.rs:105-110 | reg[r3] gets the quotient rounded toward zero and `remainder` the remainder as `u32`; a zero divisor panics |
| Semantics.CompareArm | src/vm.rs:130-207 | after the opcode, the comparison arms' outcome on every input |
| Semantics.CompareSpec | src/vm.rs:130-207 | a comparison succeeds exactly when three bytes follow and both registers exist; it changes only the flag and moves `pc` 4 |
| Semantics.CompareFlagSpec | src/vm.rs:130-207 | the flag is exactly the relation the opcode names between reg[r1] and reg[r2] |
| Semantics.JumpArm | src/vm.rs:111-122 | after the opcode, the jump arms' outcome on every input |
| Semantics.JumpSpec | src/vm.rs:111-114 | JMP r sets `pc` to reg[r] as `usize` and changes nothing else |
| Semantics.JumpForwardSpec | src/vm.rs:115-118 | JMPF r sets `pc` to pc + 2 + reg[r]; a `usize` overflow panics |
| Semantics.JumpBackSpec | src/vm.rs:119-122 | JMPB r sets `pc` to pc + 2 − reg[r]; an underflow panics |
| Semantics.ConditionalJumpArm | src/vm.rs:208-219 | after the opcode, the JEQ and JNEQ arms' outcome on every input |
| Semantics.ConditionalJumpSpec | src/vm.rs:208-219 | JEQ (JNEQ) sets `pc` to reg[r] when the flag is set (clear), and otherwise only moves past the register byte |
| Semantics.RunContinues | src/vm.rs:49-52 | a step that does not finish hands the remaining fuel to the next machine |
| Semantics.RunStops | src/vm.rs:49-52 | a step that reports done ends the run |
| Semantics.Continue | src/vm.rs:49-52 | the loop after one step keeps 32 registers and the program |
| Semantics.Setup | src/vm.rs:410-416 | a new machine with registers 0 and 1 and the program set, as the tests arrange it |
| Semantics.HaltExample | src/vm.rs:295-300 | [0, 0] stops with `pc` 1 |
| Semantics.IllegalExample | src/vm.rs:402-407 | [255] stops with `pc` 1 |
| Semantics.LoadExample | src/vm.rs:303-309 | [1, 0, 1, 244] leaves 500 in register 0 |
| Semantics.AfterOneLoad | src/vm.rs:314 | the arithmetic tests' machine after the first LOAD |
| Semantics.AfterTwoLoads | src/vm.rs:315 | the arithmetic tests' machine after both LOADs |
| Semantics.FirstLoad | src/vm.rs:314 | LOAD $0 #x puts x in register 0 |
| Semantics.SecondLoad | src/vm.rs:315 | LOAD $1 #y puts y in register 1 |
| Semantics.TwoLoads | src/vm.rs:314-315 | both LOADs put x and y in registers 0 and 1 |
| Semantics.LastInstruction | src/vm.rs:48-53 | a last instruction that reaches the end of the program ends the run |
| Semantics.ArithmeticStep | src/vm.rs:316 | the third instruction writes x op y into register 2 |
| Semantics.ThreeInstructions | src/vm.rs:317-318 | three steps complete the arithmetic tests' run |
| Semantics.ArithmeticProgram | src/vm.rs:312-322 | the arithmetic test programs leave x, y and the result in registers 0, 1 and 2 |
| Semantics.DivideStep | src/vm.rs:355 | the division test's third instruction writes the quotient and keeps the remainder |
| Semantics.DivideProgram | src/vm.rs:351-362 | the division test's program leaves the quotient in register 2 and the remainder aside |
| Semantics.AddExample | src/vm.rs:312-322 | 10 + 10 = 20 |
| Semantics.MulExample | src/vm.rs:325-335 | 10 · 10 = 100 |
| Semantics.SubExample | src/vm.rs:338-348 | 100 − 10 = 90 |
| Semantics.DivExample | src/vm.rs:351-362 | 21 / 10 = 2 with remainder 1 |
| Semantics.FirstThree | src/vm.rs:319-321 | the first three registers after the arithmetic tests |
| Semantics.TwentyOneByTen | src/vm.rs:360-361 | 21 = 10 · 2 + 1 |
| Semantics.JumpExample | src/vm.rs:365-371 | JMP $0 with register 0 holding 1 sets `pc` to 1 |
| Semantics.JumpForwardExample | src/vm.rs:374-383 | JMPF $0 with register 0 holding 2 lands on byte 4 |
| Semantics.JumpBackTestExample | src/vm.rs:386-399 | the JMPB test runs only its first instruction, JMP $0 (register 0 holds 4) |
| Semantics.JumpBackExample | src/vm.rs:390-395 | JMPB $1 at byte 4, with register 1 holding 2, returns to byte 4: a loop |
| Semantics.CompareZeroOne | src/vm.rs:130-207 | `op $0 $1` sets the flag to the relation between registers 0 and 1 and moves `pc` 4 |
| Semantics.Poke | src/vm.rs:421 | a register overwritten between steps, as the tests do |
| Semantics.Comparisons | src/vm.rs:416 | n copies of `op $0 $1`, four bytes each |
| Semantics.ComparisonAt | src/vm.rs:416 | comparison k starts at byte 4·k |
| Semantics.CompareAt | src/vm.rs:418-423 | the k-th comparison of such a program sets the flag from registers 0 and 1 |
| Semantics.CompareFirst | src/vm.rs:418-419 | the first comparison of a test |
| Semantics.CompareSecond | src/vm.rs:421-423 | after one register is overwritten, the second comparison sees the new value |
| Semantics.CompareThird | src/vm.rs:474-476 | the third comparison of a three-comparison test |
| Semantics.EqExample | src/vm.rs:410-424 | EQ: 99 = 99 sets the flag; 99 = 10 clears it |
| Semantics.NeqExample | src/vm.rs:427-440 | NEQ: 99 ≠ 99 clears the flag; 99 ≠ 10 sets it |
| Semantics.GtExample | src/vm.rs:443-456 | GT: 100 > 99 sets the flag; 10 > 99 clears it |
| Semantics.GteExample | src/vm.rs:459-477 | GTE: 100 ≥ 99 and 99 ≥ 99 set the flag; 9 ≥ 99 clears it |
| Semantics.LtExample | src/vm.rs:480-493 | LT: 10 < 99 sets the flag; 100 < 99 clears it |
| Semantics.LteExample | src/vm.rs:496-514 | LTE: 100 ≤ 99 clears the flag; 99 ≤ 99 and 99 ≤ 199 set it |
| Semantics.JumpIfEqualExample | src/vm.rs:517-524 | JEQ $0 with the flag set jumps to 5 |
| Semantics.JumpIfNotEqualExample | src/vm.rs:527-534 | JNEQ $0 with the flag clear jumps to 5 |
| VirtualMachine.VM.State | src/vm.rs:8-23 | the fields as a machine value with 32 registers |
| VirtualMachine.VM.constructor | src/vm.rs:27-35 | a new VM is `Semantics.New` with a fresh register array |
| VirtualMachine.VM.AddByte | src/vm.rs:61-63 | the byte is appended to the program, and nothing else changes |
| VirtualMachine.VM.AddBytes | src/vm.rs:66-68 | the slice is appended to the program, and nothing else changes |
| VirtualMachine.VM.Next8Bits | src/vm.rs:228-232 | the byte at `pc` with `pc` moved by 1, or the overrun panic |
| VirtualMachine.VM.Next16Bits | src/vm.rs:234-238 | the big-endian 16-bit value at `pc` with `pc` moved by 2, or the overrun panic |
| VirtualMachine.VM.DecodeOpcode | src/vm.rs:240-244 | the decoded opcode at `pc` with `pc` moved by 1, and nothing else changed |
| VirtualMachine.VM.NextRegister | src/vm.rs:91 | the register the next byte names, as `Semantics.FetchRegister` says, or its panic |
| VirtualMachine.VM.ExecuteLoad | src/vm.rs:82-89 | updates the array and fields exactly as `Semantics.Load` does, or panics as it does |
| VirtualMachine.VM.ExecuteArithmetic | src/vm.rs:90-104 | exactly as `Semantics.Arithmetic` |
| VirtualMachine.VM.ExecuteDivide | src/vm.rs:105-110 | exactly as `Semantics.Divide` |
| VirtualMachine.VM.ExecuteCompare | src/vm.rs:130-207 | exactly as `Semantics.Compare` |
| VirtualMachine.VM.ExecuteJump | src/vm.rs:111-122 | exactly as `Semantics.Jump` |
| VirtualMachine.VM.ExecuteConditionalJump | src/vm.rs:208-219 | exactly as `Semantics.ConditionalJump` |
| VirtualMachine.VM.ExecuteInstruction | src/vm.rs:71-226 | the new state and the done result are those of `Semantics.Step`, or its panic |
| VirtualMachine.VM.RunOnce | src/vm.rs:56-58 | one `Semantics.Step`, with its result dropped |
| VirtualMachine.VM.Run | src/vm.rs:48-53 | the loop ends in the state `Semantics.Run` gives for the same fuel, or with its panic |
| VirtualMachine.VM.Registers | src/vm.rs:277-279 | a fresh iterator that will yield exactly the current registers, in order |
| VirtualMachine.RegisterIterator.Remaining | src/vm.rs:249-252 | the values still to come: 32 − i of them |
| VirtualMachine.RegisterIterator.constructor | src/vm.rs:255-260 | starts at position 0 on a copy of the registers |
| VirtualMachine.RegisterIterator.Next | src/vm.rs:266-273 | yields the first remaining register and drops it from what remains; yields None, changing nothing, once all 32 are gone |
| VirtualMachine.AddByteExample | src/vm.rs:548-553 | a new VM given the byte 1 holds the program [1] |
| VirtualMachine.AddBytesExample | src/vm.rs:555-560 | a new VM given the slice [1, 2] holds the program [1, 2] |
| VirtualMachine.RegistersIteratorExample | src/vm.rs:536-546 | with register i holding i, the iterator yields 0, 1, …, 31 in order |
| VirtualMachine.Drain | src/vm.rs:543-545 | the test's loop collects exactly what the iterator had still to yield |
| Pipeline.LoadBytes | src/assembler/token.rs:23-26 | four bytes: LOAD, the register, and a big-endian pair whose value is v mod 65536 |
| Pipeline.LoadEncodes | src/assembler/assembly_instruction.rs:24-47 | `LOAD $r #v` encodes to those bytes for every `i32` v |
| Pipeline.LoadProgramEncodes | src/assembler/program.rs:14-20 | the one-instruction program encodes to the same four bytes |
| Pipeline.LoadTextParses | src/assembler/parsers.rs:214-219 | the printed one-line program `LOAD $r #v` parses back to that instruction, for every non-negative v |
| Pipeline.LoadRuns | src/vm.rs:82-89 | running them sets reg[r] to v mod 65536 and `pc` to 4, and the run is done |
| Pipeline.AssembleAndRun | src/assembler/parsers.rs:214-219 | the printed `LOAD $r #v` parses back, encodes to its four bytes, and running them leaves v mod 65536 in reg[r] and 0 in every other register |

Some definitions carry no contract of their own, because any `ensures` on
them would repeat their body. Each one is what the rows named beside it
state things about:

- `Semantics.Exact` and `Semantics.Relation` (src/vm.rs:90-207): the
  arithmetic and comparison each opcode names. See `ArithmeticSpec`,
  `CompareSpec` and `CompareFlagSpec`.
- `Semantics.FetchRegister` (src/vm.rs:91): see `FetchRegisterSpec`.
- `Instructions.Encoding` and `Instructions.OperandBytes`
  (src/assembler/assembly_instruction.rs:24-47): see `EncodingOk`,
  `EncodingLayout`, `EncodingLength`, `OperandBytesOk` and
  `OperandBytesError`. `AssemblyInstruction.ToBytes` is proved equal to
  `Encoding`.
- `Programs.Encoding` and `Programs.Concatenation`
  (src/assembler/program.rs:14-20): see `ConcatenationOk`,
  `ConcatenationStep`, `ConcatenationPrefixError`, `ConcatenationAppend`,
  `UniformConcatenation` and `EncodingOk`. `Program.ToBytes` is proved
  equal to `Encoding`.
- `LegacyAssembler.Encoding`, `OperandBytes` and `ProgramEncoding`
  (src/assembler/mod.rs:45-87): see `EncodingAgrees`, `OperandBytesAgree`,
  `ProgramAgrees` and `EncodingLayout`.
- `Text.DecimalValue`, which is `str::parse` on a digit run
  (src/assembler/parsers.rs:27): see `DecimalRoundTrip` and `LeadingZero`.
- `Parsers.Instruction` (src/assembler/parsers.rs:112-197): the
  instruction struct with no label and no directive.
- `Parsers.Filled` and `Parsers.WellFormed`
  (src/assembler/parsers.rs:112-219): see `FormShape`, `InstructionShape`
  and `ProgramShape`.
- `Rendering.PrintableInstruction` (src/assembler/parsers.rs:201-211):
  the five forms. See `Canonical` and `InstructionParses`.

## Left out

- `VM::dump_state` (src/vm.rs:38-45) and every `println!`/`eprintln!`. They only print.
- The REPL (src/repl/mod.rs) and `main` (src/main.rs). They are terminal I/O around the core.
- `Semantics.Run` and `VirtualMachine.VM.Run` take a fuel bound. The source's `run` loops until an instruction reports done, and it may never stop, as the JMPB test's loop shows. With fuel, a run that does not end within the bound returns `false` rather than diverging.
- Panics are `Fault` values, and the machine's state after a panic is not modelled, because the source's machine does not survive it. The `i32` overflow and `usize` under- and overflow panics are those of a debug build. A release build would wrap instead, and that is not modelled.
- The symbol table (src/assembler/symbols.rs) is a type only. `Program::to_bytes` takes it as a parameter and never reads it. Labels are not resolved anywhere in the source.
- src/instruction.rs is a stale two-opcode enum. It is not part of this model. The opcodes follow src/opcode.rs throughout, including for the files that import the stale path.
- `impl fmt::Display for AssemblyInstruction` (src/assembler/assembly_instruction.rs:50-58). It is formatting for output only.
- nom's error values are reduced to their kind: the input position for a `cut` failure, and nothing for a recoverable error. The `context` labels are not modelled.
- Opcodes.UpperCase: `to_uppercase` is modelled on ASCII letters only, because mnemonics are ASCII. A non-ASCII letter that upper-cases to ASCII (such as 'ı' to 'I') would be read differently.
- Rendering prints numbers only without a sign, as the parser reads them. The round-trip lemmas therefore cover non-negative integers.

## Notes on the source

- The parser and the newer encoder use the `AssemblyInstruction` of src/assembler/assembly_instruction.rs, which has `label` and `directive` fields and an optional opcode. src/assembler/mod.rs still declares older `Token`, `AssemblyInstruction` and `Program` types, which parsers.rs imports by path. Module `LegacyAssembler` models them separately and proves that they encode alike whenever the older encoder does not exit. The field `label` is called `labelDecl`, because `label` is a Dafny keyword.
- `parse_number` does not trim its input.
- A register index is not range-checked when parsing; `execute_instruction` panics on it instead.
- JMPF and JMPB count from just past the register byte. That is `pc` + 2 from the opcode, not from the opcode itself.
- The comparison arms skip their third byte.
