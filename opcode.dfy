/**
 * The instruction set of src/opcode.rs: the `Opcode` enum and its three
 * conversions (enum to byte, byte to enum, mnemonic to enum).
 */
module Opcodes {
  import opened Base

  datatype Opcode =
    | HLT | LOAD | ADD | MUL | SUB | DIV
    | JMP | JMPF | JMPB
    | EQ | NEQ | GT | GTE | LT | LTE
    | JEQ | JNEQ | ALOC
    | IGL

  /** The variants with a code below 255, in declaration order. */
  const DECLARED: seq<Opcode> :=
    [HLT, LOAD, ADD, MUL, SUB, DIV, JMP, JMPF, JMPB, EQ, NEQ, GT, GTE, LT, LTE, JEQ, JNEQ, ALOC]

  /** The code reserved for the illegal instruction. */
  const IGL_CODE: Byte := 255

  /** `u8::from(op)`: the declared discriminant. */
  function Code(op: Opcode): (b: Byte)
    ensures op == IGL <==> b == IGL_CODE
    ensures op != IGL ==> b < |DECLARED| && DECLARED[b] == op
  {
    match op
    case HLT => 0
    case LOAD => 1
    case ADD => 2
    case MUL => 3
    case SUB => 4
    case DIV => 5
    case JMP => 6
    case JMPF => 7
    case JMPB => 8
    case EQ => 9
    case NEQ => 10
    case GT => 11
    case GTE => 12
    case LT => 13
    case LTE => 14
    case JEQ => 15
    case JNEQ => 16
    case ALOC => 17
    case IGL => 255
  }

  /** `Opcode::from(u8)`: total; a byte that is no declared discriminant decodes to IGL. */
  function FromByte(b: Byte): (op: Opcode)
    ensures b < |DECLARED| ==> op == DECLARED[b]
    ensures b >= |DECLARED| ==> op == IGL
  {
    match b
    case 0 => HLT
    case 1 => LOAD
    case 2 => ADD
    case 3 => MUL
    case 4 => SUB
    case 5 => DIV
    case 6 => JMP
    case 7 => JMPF
    case 8 => JMPB
    case 9 => EQ
    case 10 => NEQ
    case 11 => GT
    case 12 => GTE
    case 13 => LT
    case 14 => LTE
    case 15 => JEQ
    case 16 => JNEQ
    case 17 => ALOC
    case _ => IGL
  }

  /** Decoding the code of an opcode gives the opcode back. */
  lemma CodeRoundTrip(op: Opcode)
    ensures FromByte(Code(op)) == op
  {
  }

  /** Distinct opcodes have distinct codes. */
  lemma CodeInjective(a: Opcode, b: Opcode)
    ensures Code(a) == Code(b) ==> a == b
  {
    CodeRoundTrip(a);
    CodeRoundTrip(b);
  }

  /** Encoding a decoded byte gives the byte back below 18 and 255 otherwise. */
  lemma ByteRoundTrip(b: Byte)
    ensures Code(FromByte(b)) == if b < |DECLARED| then b else IGL_CODE
  {
  }

  /** The upper-case spelling of each opcode accepted by `Opcode::from(&str)`. */
  function Mnemonic(op: Opcode): (s: string)
    ensures 2 <= |s| <= 4 && forall i :: 0 <= i < |s| ==> 'A' <= s[i] <= 'Z'
  {
    match op
    case HLT => "HLT"
    case LOAD => "LOAD"
    case ADD => "ADD"
    case MUL => "MUL"
    case SUB => "SUB"
    case DIV => "DIV"
    case JMP => "JMP"
    case JMPF => "JMPF"
    case JMPB => "JMPB"
    case EQ => "EQ"
    case NEQ => "NEQ"
    case GT => "GT"
    case GTE => "GTE"
    case LT => "LT"
    case LTE => "LTE"
    case JEQ => "JEQ"
    case JNEQ => "JNEQ"
    case ALOC => "ALOC"
    case IGL => "IGL"
  }

  /** Upper-casing of one ASCII character; other characters are left as they are. */
  function UpperChar(c: char): char {
    if 'a' <= c <= 'z' then (c as int - 'a' as int + 'A' as int) as char else c
  }

  function LowerChar(c: char): char {
    if 'A' <= c <= 'Z' then (c as int - 'A' as int + 'a' as int) as char else c
  }

  /** `str::to_uppercase`, restricted to the ASCII letters. */
  function UpperCase(s: string): (u: string)
    ensures |u| == |s| && forall i :: 0 <= i < |s| ==> u[i] == UpperChar(s[i])
  {
    seq(|s|, i requires 0 <= i < |s| => UpperChar(s[i]))
  }

  function LowerCase(s: string): (l: string)
    ensures |l| == |s| && forall i :: 0 <= i < |s| ==> l[i] == LowerChar(s[i])
  {
    seq(|s|, i requires 0 <= i < |s| => LowerChar(s[i]))
  }

  /**
   * `Opcode::from(&str)`: the word is upper-cased and compared with the
   * mnemonic of every legal opcode; a word that matches none gives IGL,
   * never an error.
   */
  function FromMnemonic(s: string): (op: Opcode)
    ensures op != IGL ==> UpperCase(s) == Mnemonic(op)
  {
    LookUp(UpperCase(s), 0)
  }

  /** The first of `DECLARED[i..]` whose mnemonic is `word`, or IGL when there is none. */
  function LookUp(word: string, i: nat): (op: Opcode)
    ensures op != IGL ==> word == Mnemonic(op)
    decreases |DECLARED| - i
  {
    if i >= |DECLARED| then IGL
    else if Mnemonic(DECLARED[i]) == word then DECLARED[i]
    else LookUp(word, i + 1)
  }

  /** Distinct opcodes have distinct mnemonics: length, first and last letter tell them apart. */
  lemma MnemonicInjective(a: Opcode, b: Opcode)
    ensures Mnemonic(a) == Mnemonic(b) ==> a == b
  {
    var m := Mnemonic(a);
    if m == Mnemonic(b) {
      assert |m| == |Mnemonic(b)| && m[0] == Mnemonic(b)[0] && m[|m| - 1] == Mnemonic(b)[|m| - 1];
    }
  }

  /** The legal opcodes are listed once each. */
  lemma DeclaredDistinct(i: nat, j: nat)
    requires i < |DECLARED| && j < |DECLARED|
    ensures DECLARED[i] == DECLARED[j] ==> i == j
    ensures DECLARED[i] != IGL
  {
    CodeRoundTrip(DECLARED[i]);
    CodeRoundTrip(DECLARED[j]);
  }

  /** `LookUp` finds the opcode of `DECLARED[i..]` that carries the word, if one does. */
  lemma {:induction false} LookUpFinds(word: string, i: nat, j: nat)
    requires i <= j < |DECLARED| && Mnemonic(DECLARED[j]) == word
    ensures LookUp(word, i) == DECLARED[j]
    decreases j - i
  {
    if Mnemonic(DECLARED[i]) == word {
      MnemonicInjective(DECLARED[i], DECLARED[j]);
      DeclaredDistinct(i, j);
    } else {
      LookUpFinds(word, i + 1, j);
    }
  }

  /** `LookUp` gives IGL when no opcode of `DECLARED[i..]` carries the word. */
  lemma {:induction false} LookUpMisses(word: string, i: nat)
    requires forall j :: i <= j < |DECLARED| ==> Mnemonic(DECLARED[j]) != word
    ensures LookUp(word, i) == IGL
    decreases |DECLARED| - i
  {
    if i < |DECLARED| {
      LookUpMisses(word, i + 1);
    }
  }

  /** A word whose upper-case form is no mnemonic of a legal opcode maps to IGL. */
  lemma UnknownMnemonic(s: string)
    requires forall op :: op != IGL ==> UpperCase(s) != Mnemonic(op)
    ensures FromMnemonic(s) == IGL
  {
    LookUpMisses(UpperCase(s), 0);
  }

  /** Every opcode is recovered from its mnemonic (IGL through the fallback). */
  lemma MnemonicRoundTrip(op: Opcode)
    ensures FromMnemonic(Mnemonic(op)) == op
  {
    var m := Mnemonic(op);
    assert UpperCase(m) == m;
    if op == IGL {
      forall j | 0 <= j < |DECLARED|
        ensures Mnemonic(DECLARED[j]) != m
      {
        MnemonicInjective(DECLARED[j], IGL);
        DeclaredDistinct(j, j);
      }
      LookUpMisses(m, 0);
    } else {
      LookUpFinds(m, 0, Code(op));
    }
  }

  /** The mapping ignores case: a word and its upper-case form map alike. */
  lemma MnemonicCaseInsensitive(s: string)
    ensures FromMnemonic(s) == FromMnemonic(UpperCase(s))
    ensures FromMnemonic(s) == FromMnemonic(LowerCase(s))
  {
    assert UpperCase(UpperCase(s)) == UpperCase(s);
    assert UpperCase(LowerCase(s)) == UpperCase(s);
  }

  /** The lower-case spelling of every mnemonic is recognised too ("add" gives ADD). */
  lemma LowerCaseMnemonic(op: Opcode)
    ensures FromMnemonic(LowerCase(Mnemonic(op))) == op
  {
    MnemonicCaseInsensitive(Mnemonic(op));
    MnemonicRoundTrip(op);
  }

  /** A word whose upper-case form is a mnemonic maps to that mnemonic's opcode. */
  lemma SpelledAs(s: string, op: Opcode)
    requires UpperCase(s) == Mnemonic(op)
    ensures FromMnemonic(s) == op
  {
    MnemonicRoundTrip(op);
    assert UpperCase(Mnemonic(op)) == Mnemonic(op);
  }

  /** The spellings of the opcode test of src/assembler/parsers.rs, each with the opcode it names. */
  const TEST_SPELLINGS: seq<(string, Opcode)> := [
    ("HLT", HLT), ("load", LOAD), ("AdD", ADD), ("mUL", MUL), ("SuB", SUB), ("DIv", DIV),
    ("jMP", JMP), ("jmpf", JMPF), ("jmpB", JMPB), ("Eq", EQ), ("neQ", NEQ), ("GT", GT),
    ("GTE", GTE), ("LT", LT), ("LTE", LTE), ("JEQ", JEQ), ("JNEQ", JNEQ), ("IGL", IGL)]

  /** Every spelling of the test, whatever its letter case, maps to the opcode the test expects. */
  lemma MnemonicExamples(i: nat)
    requires i < |TEST_SPELLINGS|
    ensures FromMnemonic(TEST_SPELLINGS[i].0) == TEST_SPELLINGS[i].1
  {
    TestSpelling(i);
    SpelledAs(TEST_SPELLINGS[i].0, TEST_SPELLINGS[i].1);
  }

  /** "hlt" and "add", two lower-case spellings of the source's test of `Opcode::from`, give HLT and ADD. */
  lemma MoreMnemonicExamples()
    ensures FromMnemonic("hlt") == HLT && FromMnemonic("add") == ADD
  {
    assert FromMnemonic("hlt") == HLT by {
      assert UpperCase("hlt") == "HLT";
      SpelledAs("hlt", HLT);
    }
    assert FromMnemonic("add") == ADD by {
      assert UpperCase("add") == "ADD";
      SpelledAs("add", ADD);
    }
  }

  /** Each spelling of the test upper-cases to its opcode's mnemonic. */
  lemma TestSpelling(i: nat)
    requires i < |TEST_SPELLINGS|
    ensures UpperCase(TEST_SPELLINGS[i].0) == Mnemonic(TEST_SPELLINGS[i].1)
  {
    if i < 6 {
      FirstTestSpellings(i);
    } else if i < 12 {
      MiddleTestSpellings(i);
    } else {
      LastTestSpellings(i);
    }
  }

  lemma FirstTestSpellings(i: nat)
    requires i < 6
    ensures UpperCase(TEST_SPELLINGS[i].0) == Mnemonic(TEST_SPELLINGS[i].1)
  {
  }

  lemma MiddleTestSpellings(i: nat)
    requires 6 <= i < 12
    ensures UpperCase(TEST_SPELLINGS[i].0) == Mnemonic(TEST_SPELLINGS[i].1)
  {
  }

  lemma LastTestSpellings(i: nat)
    requires 12 <= i < 18
    ensures UpperCase(TEST_SPELLINGS[i].0) == Mnemonic(TEST_SPELLINGS[i].1)
  {
  }

  /** A word longer than every mnemonic gives IGL, as "hehehe" does in the source's test. */
  lemma LongWordIsIllegal(s: string)
    requires |s| > 4
    ensures FromMnemonic(s) == IGL
  {
    LookUpMisses(UpperCase(s), 0);
  }
}
