/**
 * One line of assembly to one machine word: the mnemonic tables, the register resolver,
 * the R-, I- and J-format encoders and the line encoder of mips_assembler.py.
 *
 * As in the source, a machine word is first built as a string of binary digits by
 * concatenating zero-filled fields; `Value(bits, 2)` is the `int(bits, 2)` the encode pass
 * applies to it. Operands are taken in the source's order, which is not the MIPS
 * assembler's: R-format `op rd, rs, rt` and I-format `op rt, rs, imm-or-label`.
 */
module Encoder {
  import opened Opt
  import opened Text
  import opened Numerals

  /** The mnemonics `assemble_line` sends to each encoder, and the ones `parse_i_type` treats as branches. */
  const RTypeMnemonics: set<string> := {"add", "sub", "and", "or", "sll", "srl", "sllv", "srlv"}
  const ITypeMnemonics: set<string> := {"addi", "andi", "lw", "sw", "beq", "bne", "blez", "bgtz"}
  const BranchMnemonics: set<string> := {"beq", "bne", "blez", "bgtz"}

  /** A 6-bit opcode or function field, as the string of binary digits the tables hold. */
  type Field6 = s: string | |s| == 6 && IsNumeral(s, 2) witness "000000"

  /** The function field of each R-format mnemonic. `sll` and `srl` take no shift amount here. */
  const FunctBits: map<string, Field6> := map[
    "add" := "100000", "sub" := "100010", "and" := "100100", "or" := "100101",
    "sll" := "000000", "srl" := "000010", "sllv" := "000100", "srlv" := "000110"]

  /** The opcode field of each I-format mnemonic. */
  const OpcodeBits: map<string, Field6> := map[
    "addi" := "001000", "andi" := "001100", "lw" := "100011", "sw" := "101011",
    "beq" := "000100", "bne" := "000101", "blez" := "000110", "bgtz" := "000111"]

  const RTypeOpcode: string := "000000"
  const ShamtBits: string := "00000"
  const JumpOpcode: string := "000010"

  /** What encoding one line gives. */
  datatype LineResult =
    | Code(bits: string)            // the machine code as a string of binary digits
    | NoCode                        // `None`: no tokens, or a mnemonic outside the tables
    | UndefinedLabel(name: string) // the KeyError for a branch or jump target missing from the label table
    | Crash                         // a ValueError or IndexError that nothing catches

  /** The R-format table has an entry for exactly the R-format mnemonics. */
  lemma FunctTable()
    ensures FunctBits.Keys == RTypeMnemonics
  {
  }

  /** The I-format table has an entry for exactly the I-format mnemonics; the branches are among them. */
  lemma OpcodeTable()
    ensures OpcodeBits.Keys == ITypeMnemonics && BranchMnemonics <= ITypeMnemonics
  {
  }

  /** No mnemonic belongs to two formats. */
  lemma MnemonicsDisjoint()
    ensures RTypeMnemonics !! ITypeMnemonics && "j" !in RTypeMnemonics && "j" !in ITypeMnemonics
  {
  }

  /** `register_number`: the integer after deleting every '$' from the token. */
  function RegisterNumber(reg: string): Option<int> {
    ParseInt(RemoveChar(reg, '$'))
  }

  /** `parse_r_type`: `op rd, rs, rt` as opcode, rs, rt, rd, a zero shift amount and the function field. */
  function ParseRType(parts: seq<string>): LineResult
    requires |parts| > 0 && parts[0] in RTypeMnemonics
  {
    FunctTable();
    if |parts| < 4 then Crash
    else
      var rs, rt, rd := RegisterNumber(parts[2]), RegisterNumber(parts[3]), RegisterNumber(parts[1]);
      if rs.None? || rt.None? || rd.None? then Crash
      else Code(RTypeOpcode + FormatBinary(rs.value, 5) + FormatBinary(rt.value, 5)
                + FormatBinary(rd.value, 5) + ShamtBits + FunctBits[parts[0]])
  }

  /**
   * The 16-bit branch immediate: the distance in words from the instruction after the
   * branch to the target, `((target - addr - 4) // 4) & 0xFFFF`. Dafny's `/` by a positive
   * divisor rounds down like Python's `//`, and `% 0x10000` is `& 0xFFFF` on any integer.
   */
  function BranchOffset(target: nat, addr: nat): nat {
    ((target - addr - 4) / 4) % 0x10000
  }

  /** `parse_i_type`: `op rt, rs, x`, where x is a decimal immediate or, for a branch, a label. */
  function ParseIType(parts: seq<string>, labels: map<string, nat>, addr: nat): LineResult
    requires |parts| > 0 && parts[0] in ITypeMnemonics
  {
    OpcodeTable();
    if |parts| < 3 then Crash
    else
      var rs, rt := RegisterNumber(parts[2]), RegisterNumber(parts[1]);
      if rs.None? || rt.None? || |parts| < 4 then Crash
      else
        var high := OpcodeBits[parts[0]] + FormatBinary(rs.value, 5) + FormatBinary(rt.value, 5);
        if parts[0] in BranchMnemonics then
          if parts[3] !in labels then UndefinedLabel(parts[3])
          else Code(high + FormatBinary(BranchOffset(labels[parts[3]], addr), 16))
        else
          match ParseInt(parts[3])
          case None => Crash
          case Some(k) => Code(high + FormatBinary(k % 0x10000, 16))
  }

  /** The 26-bit jump field: `(target >> 2) & 0x3FFFFFF`. */
  function JumpField(target: nat): nat {
    (target / 4) % 0x4000000
  }

  /** `parse_j_type`: `j label` as the jump opcode and the label's word address. */
  function ParseJType(parts: seq<string>, labels: map<string, nat>): LineResult {
    if |parts| < 2 then Crash
    else if parts[1] !in labels then UndefinedLabel(parts[1])
    else Code(JumpOpcode + FormatBinary(JumpField(labels[parts[1]]), 26))
  }

  /** The tokens of an instruction: ',', '(' and ')' become spaces, then the text is split on whitespace. */
  function Tokens(line: string): seq<string> {
    Split(ReplaceChar(ReplaceChar(ReplaceChar(line, ',', ' '), '(', ' '), ')', ' '))
  }

  /** `assemble_line`: dispatch on the first token. */
  function AssembleLine(line: string, labels: map<string, nat>, addr: nat): LineResult {
    var parts := Tokens(line);
    if parts == [] then NoCode
    else if parts[0] in RTypeMnemonics then ParseRType(parts)
    else if parts[0] in ITypeMnemonics then ParseIType(parts, labels, addr)
    else if parts[0] == "j" then ParseJType(parts, labels)
    else NoCode
  }

  // ---- The fields of a MIPS32 word, read back by position (bit 31 is the most significant) ----

  function OpcodeField(w: nat): nat { w / 0x4000000 }         // bits 31..26
  function RsField(w: nat): nat { (w / 0x200000) % 32 }       // bits 25..21
  function RtField(w: nat): nat { (w / 0x10000) % 32 }        // bits 20..16
  function RdField(w: nat): nat { (w / 0x800) % 32 }          // bits 15..11
  function ShamtField(w: nat): nat { (w / 0x40) % 32 }        // bits 10..6
  function FunctField(w: nat): nat { w % 0x40 }               // bits 5..0
  function ImmediateField(w: nat): nat { w % 0x10000 }        // bits 15..0
  function TargetField(w: nat): nat { w % 0x4000000 }         // bits 25..0

  /** The 32-bit word a string of 32 binary digits stands for. */
  function WordOf(bits: string): nat
    requires IsNumeral(bits, 2)
  {
    Value(bits, 2)
  }

  lemma PowersOfTwo()
    ensures Pow(2, 5) == 32 && Pow(2, 6) == 64 && Pow(2, 16) == 0x10000 && Pow(2, 26) == 0x4000000
  {
  }

  /** A value that fits its field is written as exactly `w` binary digits standing for it. */
  lemma FieldBits(n: int, w: nat)
    requires w >= 1 && 0 <= n < Pow(2, w)
    ensures |FormatBinary(n, w)| == w && IsNumeral(FormatBinary(n, w), 2)
    ensures Value(FormatBinary(n, w), 2) == n
  {
    FormatNatValue(n, 2, w);
  }

  /** Appending binary digits `b` multiplies the value so far by `m == 2^|b|` and adds theirs. */
  lemma Append(a: string, b: string, m: nat)
    requires IsNumeral(a, 2) && IsNumeral(b, 2) && m == Pow(2, |b|)
    ensures IsNumeral(a + b, 2) && Value(a + b, 2) == Value(a, 2) * m + Value(b, 2)
  {
    ValueAppend(a, b, 2);
  }

  /** Division and remainder by `c` recover the two parts of `hi * c + lo` when `lo < c`. */
  lemma DivideOut(w: int, hi: int, lo: int, c: int)
    requires c > 0 && 0 <= lo < c && w == hi * c + lo
    ensures w / c == hi && w % c == lo
  {
    var q, r := w / c, w % c;
    var k := q - hi;
    assert k * c == lo - r by {
      assert k * c == q * c - hi * c;
    }
    MultipleBound(k, c);
  }

  lemma MultipleBound(k: int, c: int)
    requires c > 0
    ensures k >= 1 ==> k * c >= c
    ensures k <= -1 ==> k * c <= -c
  {
    if k >= 1 {
      assert k * c == (k - 1) * c + c;
    } else if k <= -1 {
      assert k * c == (k + 1) * c - c;
    }
  }

  lemma DecodeR(w: nat, rs: nat, rt: nat, rd: nat, f: nat)
    requires rs < 32 && rt < 32 && rd < 32 && f < 64
    requires w == rs * 0x200000 + rt * 0x10000 + rd * 0x800 + f
    ensures w < 0x1_0000_0000 && OpcodeField(w) == 0 && RsField(w) == rs && RtField(w) == rt
      && RdField(w) == rd && ShamtField(w) == 0 && FunctField(w) == f
  {
    DivideOut(w, 0, w, 0x4000000);
    DivideOut(w, rs, rt * 0x10000 + rd * 0x800 + f, 0x200000);
    DivideOut(rs, 0, rs, 32);
    DivideOut(w, rs * 32 + rt, rd * 0x800 + f, 0x10000);
    DivideOut(rs * 32 + rt, rs, rt, 32);
    DivideOut(w, rs * 1024 + rt * 32 + rd, f, 0x800);
    DivideOut(rs * 1024 + rt * 32 + rd, rs * 32 + rt, rd, 32);
    DivideOut(w, rs * 0x8000 + rt * 0x400 + rd * 32, f, 0x40);
    DivideOut(rs * 0x8000 + rt * 0x400 + rd * 32, rs * 0x400 + rt * 32 + rd, 0, 32);
  }

  lemma DecodeI(w: nat, op: nat, rs: nat, rt: nat, imm: nat)
    requires op < 64 && rs < 32 && rt < 32 && imm < 0x10000
    requires w == op * 0x4000000 + rs * 0x200000 + rt * 0x10000 + imm
    ensures w < 0x1_0000_0000 && OpcodeField(w) == op && RsField(w) == rs && RtField(w) == rt
      && ImmediateField(w) == imm
  {
    DivideOut(w, op, rs * 0x200000 + rt * 0x10000 + imm, 0x4000000);
    DivideOut(w, op * 32 + rs, rt * 0x10000 + imm, 0x200000);
    DivideOut(op * 32 + rs, op, rs, 32);
    DivideOut(w, op * 1024 + rs * 32 + rt, imm, 0x10000);
    DivideOut(op * 1024 + rs * 32 + rt, op * 32 + rs, rt, 32);
  }

  /** The word of six concatenated fields of 6, 5, 5, 5, 5 and 6 binary digits. */
  lemma RWordValue(o: string, a: string, b: string, c: string, sh: string, f: string)
    requires |o| == 6 && |a| == 5 && |b| == 5 && |c| == 5 && |sh| == 5 && |f| == 6
    requires IsNumeral(o, 2) && IsNumeral(a, 2) && IsNumeral(b, 2) && IsNumeral(c, 2)
    requires IsNumeral(sh, 2) && IsNumeral(f, 2) && Value(o, 2) == 0 && Value(sh, 2) == 0
    ensures IsNumeral(o + a + b + c + sh + f, 2)
    ensures Value(o + a + b + c + sh + f, 2)
         == Value(a, 2) * 0x200000 + Value(b, 2) * 0x10000 + Value(c, 2) * 0x800 + Value(f, 2)
  {
    PowersOfTwo();
    var x1 := o + a;
    Append(o, a, 32);
    var x2 := x1 + b;
    Append(x1, b, 32);
    var x3 := x2 + c;
    Append(x2, c, 32);
    var x4 := x3 + sh;
    Append(x3, sh, 32);
    Append(x4, f, 64);
    RWordArith(Value(x1, 2), Value(x2, 2), Value(x3, 2), Value(x4, 2), Value(x4 + f, 2),
               Value(a, 2), Value(b, 2), Value(c, 2), Value(f, 2));
  }

  lemma RWordArith(v1: int, v2: int, v3: int, v4: int, v5: int, rs: int, rt: int, rd: int, f: int)
    requires v1 == 0 * 32 + rs && v2 == v1 * 32 + rt && v3 == v2 * 32 + rd && v4 == v3 * 32 + 0
    requires v5 == v4 * 64 + f
    ensures v5 == rs * 0x200000 + rt * 0x10000 + rd * 0x800 + f
  {
  }

  /** The bits `parse_r_type` builds from fields that fit: 32 digits whose fields read back as given. */
  lemma RWordFields(rs: int, rt: int, rd: int, f: string)
    requires 0 <= rs < 32 && 0 <= rt < 32 && 0 <= rd < 32 && |f| == 6 && IsNumeral(f, 2)
    ensures var b := RTypeOpcode + FormatBinary(rs, 5) + FormatBinary(rt, 5) + FormatBinary(rd, 5) + ShamtBits + f;
      && |b| == 32 && IsNumeral(b, 2)
      && WordOf(b) == rs * 0x200000 + rt * 0x10000 + rd * 0x800 + Value(f, 2)
      && OpcodeField(WordOf(b)) == 0 && RsField(WordOf(b)) == rs && RtField(WordOf(b)) == rt
      && RdField(WordOf(b)) == rd && ShamtField(WordOf(b)) == 0 && FunctField(WordOf(b)) == Value(f, 2)
  {
    PowersOfTwo();
    FieldBits(rs, 5);
    FieldBits(rt, 5);
    FieldBits(rd, 5);
    assert RTypeOpcode == Zeros(6) && ShamtBits == Zeros(5);
    ZerosValue(6, 2);
    ZerosValue(5, 2);
    RWordValue(RTypeOpcode, FormatBinary(rs, 5), FormatBinary(rt, 5), FormatBinary(rd, 5), ShamtBits, f);
    ValueBound(f, 2);
    var b := RTypeOpcode + FormatBinary(rs, 5) + FormatBinary(rt, 5) + FormatBinary(rd, 5) + ShamtBits + f;
    DecodeR(WordOf(b), rs, rt, rd, Value(f, 2));
  }

  /** The word of an I-format bit string whose fields stand for `rs`, `rt` and `imm`. */
  lemma IWordValue(op: string, a: string, b: string, c: string, rs: nat, rt: nat, imm: nat)
    requires |op| == 6 && |a| == 5 && |b| == 5 && |c| == 16
    requires IsNumeral(op, 2) && IsNumeral(a, 2) && IsNumeral(b, 2) && IsNumeral(c, 2)
    requires Value(a, 2) == rs && Value(b, 2) == rt && Value(c, 2) == imm
    ensures IsNumeral(op + a + b + c, 2)
    ensures Value(op + a + b + c, 2) == Value(op, 2) * 0x4000000 + rs * 0x200000 + rt * 0x10000 + imm
  {
    PowersOfTwo();
    var x1 := op + a;
    Append(op, a, 32);
    var x2 := x1 + b;
    Append(x1, b, 32);
    Append(x2, c, 0x10000);
    IWordArith(Value(op, 2), Value(x1, 2), Value(x2, 2), Value(x2 + c, 2), rs, rt, imm);
  }

  lemma IWordArith(op: int, v1: int, v2: int, v3: int, rs: int, rt: int, imm: int)
    requires v1 == op * 32 + rs && v2 == v1 * 32 + rt && v3 == v2 * 0x10000 + imm
    ensures v3 == op * 0x4000000 + rs * 0x200000 + rt * 0x10000 + imm
  {
  }

  /** The bits `parse_i_type` builds from fields that fit: 32 digits whose fields read back as given. */
  lemma IWordFields(op: string, rs: int, rt: int, imm: int)
    requires |op| == 6 && IsNumeral(op, 2) && 0 <= rs < 32 && 0 <= rt < 32 && 0 <= imm < 0x10000
    ensures var b := op + FormatBinary(rs, 5) + FormatBinary(rt, 5) + FormatBinary(imm, 16);
      && |b| == 32 && IsNumeral(b, 2)
      && OpcodeField(WordOf(b)) == Value(op, 2) && RsField(WordOf(b)) == rs && RtField(WordOf(b)) == rt
      && ImmediateField(WordOf(b)) == imm
  {
    PowersOfTwo();
    FieldBits(rs, 5);
    FieldBits(rt, 5);
    FieldBits(imm, 16);
    IWordValue(op, FormatBinary(rs, 5), FormatBinary(rt, 5), FormatBinary(imm, 16), rs, rt, imm);
    ValueBound(op, 2);
    var b := op + FormatBinary(rs, 5) + FormatBinary(rt, 5) + FormatBinary(imm, 16);
    DecodeI(WordOf(b), Value(op, 2), rs, rt, imm);
  }

  lemma JumpOpcodeValue()
    ensures IsNumeral(JumpOpcode, 2) && Value(JumpOpcode, 2) == 2
  {
    assert "10"[..1] == "1" && "1"[..0] == "";
    assert Value("10", 2) == 2;
    assert JumpOpcode == Zeros(4) + "10";
    ZerosValue(4, 2);
    Append(Zeros(4), "10", 4);
  }

  /** The bits `parse_j_type` builds: 32 digits, opcode 2, and the jump field in the low 26 bits. */
  lemma JWordFields(target: nat)
    ensures var b := JumpOpcode + FormatBinary(JumpField(target), 26);
      && |b| == 32 && IsNumeral(b, 2)
      && OpcodeField(WordOf(b)) == 2 && TargetField(WordOf(b)) == JumpField(target)
  {
    PowersOfTwo();
    var t := FormatBinary(JumpField(target), 26);
    FieldBits(JumpField(target), 26);
    JumpOpcodeValue();
    Append(JumpOpcode, t, 0x4000000);
  }

  /** The value of six binary digits, most significant first. */
  lemma SixBits(s: string)
    requires |s| == 6 && IsNumeral(s, 2)
    ensures Value(s, 2) == DigitValue(s[0]) * 32 + DigitValue(s[1]) * 16 + DigitValue(s[2]) * 8
                         + DigitValue(s[3]) * 4 + DigitValue(s[4]) * 2 + DigitValue(s[5])
  {
    assert s[..5][..4] == s[..4] && s[..4][..3] == s[..3] && s[..3][..2] == s[..2];
    assert s[..2][..1] == s[..1] && s[..1][..0] == [];
    assert Value(s[..1], 2) == DigitValue(s[0]);
    assert Value(s[..2], 2) == Value(s[..1], 2) * 2 + DigitValue(s[1]);
    assert Value(s[..3], 2) == Value(s[..2], 2) * 2 + DigitValue(s[2]);
    assert Value(s[..4], 2) == Value(s[..3], 2) * 2 + DigitValue(s[3]);
    assert Value(s[..5], 2) == Value(s[..4], 2) * 2 + DigitValue(s[4]);
    assert Value(s, 2) == Value(s[..5], 2) * 2 + DigitValue(s[5]);
  }

  /** The function code of an R-format mnemonic, as a number. */
  function FunctCode(m: string): (c: nat)
    requires m in RTypeMnemonics
    ensures c < 64
  {
    FunctTable();
    PowersOfTwo();
    ValueBound(FunctBits[m], 2);
    Value(FunctBits[m], 2)
  }

  /** The opcode of an I-format mnemonic, as a number. */
  function OpcodeCode(m: string): (c: nat)
    requires m in ITypeMnemonics
    ensures c < 64
  {
    OpcodeTable();
    PowersOfTwo();
    ValueBound(OpcodeBits[m], 2);
    Value(OpcodeBits[m], 2)
  }

  /** The function code of each R-format instruction in the MIPS32 instruction set. */
  function MipsFunct(m: string): nat {
    if m == "add" then 0x20 else if m == "sub" then 0x22 else if m == "and" then 0x24
    else if m == "or" then 0x25 else if m == "sll" then 0x00 else if m == "srl" then 0x02
    else if m == "sllv" then 0x04 else 0x06
  }

  /** The opcode of each I-format instruction in the MIPS32 instruction set. */
  function MipsOpcode(m: string): nat {
    if m == "addi" then 0x08 else if m == "andi" then 0x0c else if m == "lw" then 0x23
    else if m == "sw" then 0x2b else if m == "beq" then 0x04 else if m == "bne" then 0x05
    else if m == "blez" then 0x06 else 0x07
  }

  /** The function field table agrees with the MIPS32 function codes. */
  lemma FunctCodes(m: string)
    requires m in RTypeMnemonics
    ensures FunctCode(m) == MipsFunct(m)
  {
    FunctTable();
    if m == "add" {
      assert FunctBits[m] == "100000";
      SixBits("100000");
    } else if m == "sub" {
      assert FunctBits[m] == "100010";
      SixBits("100010");
    } else if m == "and" {
      assert FunctBits[m] == "100100";
      SixBits("100100");
    } else if m == "or" {
      assert FunctBits[m] == "100101";
      SixBits("100101");
    } else if m == "sll" {
      assert FunctBits[m] == "000000";
      SixBits("000000");
    } else if m == "srl" {
      assert FunctBits[m] == "000010";
      SixBits("000010");
    } else if m == "sllv" {
      assert FunctBits[m] == "000100";
      SixBits("000100");
    } else {
      assert m == "srlv";
      assert FunctBits[m] == "000110";
      SixBits("000110");
    }
  }

  /** The opcode table agrees with the MIPS32 opcodes. */
  lemma OpcodeCodes(m: string)
    requires m in ITypeMnemonics
    ensures OpcodeCode(m) == MipsOpcode(m)
  {
    OpcodeTable();
    if m == "addi" {
      assert OpcodeBits[m] == "001000";
      SixBits("001000");
    } else if m == "andi" {
      assert OpcodeBits[m] == "001100";
      SixBits("001100");
    } else if m == "lw" {
      assert OpcodeBits[m] == "100011";
      SixBits("100011");
    } else if m == "sw" {
      assert OpcodeBits[m] == "101011";
      SixBits("101011");
    } else if m == "beq" {
      assert OpcodeBits[m] == "000100";
      SixBits("000100");
    } else if m == "bne" {
      assert OpcodeBits[m] == "000101";
      SixBits("000101");
    } else if m == "blez" {
      assert OpcodeBits[m] == "000110";
      SixBits("000110");
    } else {
      assert m == "bgtz";
      assert OpcodeBits[m] == "000111";
      SixBits("000111");
    }
  }

  // ---- What a processor does with the fields: the partners of the encoders ----

  /** A 16-bit field read as a two's-complement number. */
  function SignExtend16(h: nat): int
    requires h < 0x10000
  {
    if h < 0x8000 then h else h - 0x10000
  }

  /** Where a branch at `addr` whose word is `w` goes when taken: the next instruction plus the offset in words. */
  function BranchDestination(addr: nat, w: nat): int {
    addr + 4 + 4 * SignExtend16(ImmediateField(w))
  }

  /** Where a jump at `addr` whose word is `w` goes: the 256 MB region of the next instruction, at the word the field names. */
  function JumpDestination(addr: nat, w: nat): nat {
    (addr + 4) / 0x10000000 * 0x10000000 + TargetField(w) * 4
  }

  /** `k & 0xFFFF` read back as a signed 16-bit number is `k` for every `k` that fits. */
  lemma SignExtendTruncate(k: int)
    requires -0x8000 <= k < 0x8000
    ensures SignExtend16(k % 0x10000) == k
  {
  }

  /** The offset `parse_i_type` encodes takes a branch back to its label, when both are word-aligned and in reach. */
  lemma BranchRoundTrip(target: nat, addr: nat, w: nat)
    requires target % 4 == 0 && addr % 4 == 0 && -0x8000 <= (target - addr - 4) / 4 < 0x8000
    requires ImmediateField(w) == BranchOffset(target, addr)
    ensures BranchDestination(addr, w) == target
  {
    var d := (target - addr - 4) / 4;
    DivideOut(target - addr - 4, d, 0, 4);
    SignExtendTruncate(d);
  }

  /** The field `parse_j_type` encodes takes a jump back to its label, when the label is word-aligned and in the jump's region. */
  lemma JumpRoundTrip(target: nat, addr: nat, w: nat)
    requires target % 4 == 0 && target / 0x10000000 == (addr + 4) / 0x10000000
    requires TargetField(w) == JumpField(target)
    ensures JumpDestination(addr, w) == target
  {
    var region, low := target / 0x10000000, target % 0x10000000;
    var q := low / 4;
    assert low == q * 4;
    DivideOut(target, region * 0x4000000 + q, 0, 4);
    DivideOut(target / 4, region, q, 0x4000000);
  }

  // ---- The line encoder, format by format ----

  /**
   * `parse_r_type` on registers in 0..31: 32 binary digits whose word has opcode 0, the
   * second, third and first operands in the rs, rt and rd fields, shift amount 0 and the
   * MIPS32 function code of the mnemonic.
   */
  lemma RTypeWord(parts: seq<string>, rd: int, rs: int, rt: int)
    requires |parts| >= 4 && parts[0] in RTypeMnemonics
    requires RegisterNumber(parts[1]) == Some(rd) && RegisterNumber(parts[2]) == Some(rs)
    requires RegisterNumber(parts[3]) == Some(rt)
    requires 0 <= rd < 32 && 0 <= rs < 32 && 0 <= rt < 32
    ensures var r := ParseRType(parts);
      r.Code? && |r.bits| == 32 && IsNumeral(r.bits, 2)
      && OpcodeField(WordOf(r.bits)) == 0 && RsField(WordOf(r.bits)) == rs
      && RtField(WordOf(r.bits)) == rt && RdField(WordOf(r.bits)) == rd
      && ShamtField(WordOf(r.bits)) == 0 && FunctField(WordOf(r.bits)) == MipsFunct(parts[0])
      && WordOf(r.bits) == rs * 0x200000 + rt * 0x10000 + rd * 0x800 + MipsFunct(parts[0])
  {
    FunctTable();
    FunctCodes(parts[0]);
    RWordFields(rs, rt, rd, FunctBits[parts[0]]);
  }

  /**
   * `parse_i_type` on `addi`, `andi`, `lw` or `sw` with registers in 0..31 and a decimal
   * immediate `k`: 32 binary digits whose word has the MIPS32 opcode, the third and second
   * operands in the rs and rt fields, and `k mod 65536` in the low 16 bits, which read back
   * as a signed number give `k` whenever `k` fits in 16 bits.
   */
  lemma ImmediateWord(parts: seq<string>, labels: map<string, nat>, addr: nat, rt: int, rs: int, k: int)
    requires |parts| >= 4 && parts[0] in ITypeMnemonics && parts[0] !in BranchMnemonics
    requires RegisterNumber(parts[1]) == Some(rt) && RegisterNumber(parts[2]) == Some(rs)
    requires ParseInt(parts[3]) == Some(k)
    requires 0 <= rt < 32 && 0 <= rs < 32
    ensures var r := ParseIType(parts, labels, addr);
      r.Code? && |r.bits| == 32 && IsNumeral(r.bits, 2)
      && OpcodeField(WordOf(r.bits)) == MipsOpcode(parts[0])
      && RsField(WordOf(r.bits)) == rs && RtField(WordOf(r.bits)) == rt
      && ImmediateField(WordOf(r.bits)) == k % 0x10000
      && (-0x8000 <= k < 0x8000 ==> SignExtend16(ImmediateField(WordOf(r.bits))) == k)
  {
    OpcodeTable();
    OpcodeCodes(parts[0]);
    IWordFields(OpcodeBits[parts[0]], rs, rt, k % 0x10000);
    if -0x8000 <= k < 0x8000 {
      SignExtendTruncate(k);
    }
  }

  /**
   * `parse_i_type` on a branch to a defined label with registers in 0..31: 32 binary digits
   * whose word has the MIPS32 opcode, the registers in rs and rt, and the word offset of the
   * label from the next instruction in the low 16 bits; for a word-aligned label in reach,
   * taking the branch lands on the label.
   */
  lemma BranchWord(parts: seq<string>, labels: map<string, nat>, addr: nat, rt: int, rs: int)
    requires |parts| >= 4 && parts[0] in BranchMnemonics && parts[3] in labels
    requires RegisterNumber(parts[1]) == Some(rt) && RegisterNumber(parts[2]) == Some(rs)
    requires 0 <= rt < 32 && 0 <= rs < 32
    ensures var r, target := ParseIType(parts, labels, addr), labels[parts[3]];
      r.Code? && |r.bits| == 32 && IsNumeral(r.bits, 2)
      && OpcodeField(WordOf(r.bits)) == MipsOpcode(parts[0])
      && RsField(WordOf(r.bits)) == rs && RtField(WordOf(r.bits)) == rt
      && ImmediateField(WordOf(r.bits)) == BranchOffset(target, addr)
      && (target % 4 == 0 && addr % 4 == 0 && -0x8000 <= (target - addr - 4) / 4 < 0x8000
          ==> BranchDestination(addr, WordOf(r.bits)) == target)
  {
    OpcodeTable();
    OpcodeCodes(parts[0]);
    var target := labels[parts[3]];
    IWordFields(OpcodeBits[parts[0]], rs, rt, BranchOffset(target, addr));
    if target % 4 == 0 && addr % 4 == 0 && -0x8000 <= (target - addr - 4) / 4 < 0x8000 {
      BranchRoundTrip(target, addr, WordOf(ParseIType(parts, labels, addr).bits));
    }
  }

  /**
   * `parse_j_type` on a defined label: 32 binary digits whose word has opcode 2 and
   * `(label >> 2) & 0x3FFFFFF` in the low 26 bits; for a word-aligned label in the jump's
   * 256 MB region, the jump lands on the label.
   */
  lemma JumpWord(parts: seq<string>, labels: map<string, nat>, addr: nat)
    requires |parts| >= 2 && parts[1] in labels
    ensures var r, target := ParseJType(parts, labels), labels[parts[1]];
      r.Code? && |r.bits| == 32 && IsNumeral(r.bits, 2)
      && OpcodeField(WordOf(r.bits)) == 2 && TargetField(WordOf(r.bits)) == JumpField(target)
      && (target % 4 == 0 && target / 0x10000000 == (addr + 4) / 0x10000000
          ==> JumpDestination(addr, WordOf(r.bits)) == target)
  {
    var target := labels[parts[1]];
    JWordFields(target);
    if target % 4 == 0 && target / 0x10000000 == (addr + 4) / 0x10000000 {
      JumpRoundTrip(target, addr, WordOf(ParseJType(parts, labels).bits));
    }
  }

  /** `assemble_line` hands a line to the encoder its first token selects, with the line's tokens. */
  lemma Dispatch(line: string, labels: map<string, nat>, addr: nat)
    requires Tokens(line) != []
    ensures var p := Tokens(line);
      && (p[0] in RTypeMnemonics ==> AssembleLine(line, labels, addr) == ParseRType(p))
      && (p[0] in ITypeMnemonics ==> AssembleLine(line, labels, addr) == ParseIType(p, labels, addr))
      && (p[0] == "j" ==> AssembleLine(line, labels, addr) == ParseJType(p, labels))
  {
    MnemonicsDisjoint();
  }

  /** A line gives no code exactly when it has no tokens or its first token is not a mnemonic of the assembler. */
  lemma NoCodeExactly(line: string, labels: map<string, nat>, addr: nat)
    ensures AssembleLine(line, labels, addr) == NoCode
        <==> var p := Tokens(line); p == [] || (p[0] !in RTypeMnemonics && p[0] !in ITypeMnemonics && p[0] != "j")
  {
  }

  /**
   * An undefined label arises exactly for a jump, or a branch with two integer registers,
   * whose label is missing from the table; it names that label.
   */
  lemma UndefinedLabelExactly(line: string, labels: map<string, nat>, addr: nat)
    ensures var r, p := AssembleLine(line, labels, addr), Tokens(line);
      r.UndefinedLabel? <==>
        || (|p| >= 2 && p[0] == "j" && p[1] !in labels)
        || (|p| >= 4 && p[0] in BranchMnemonics && RegisterNumber(p[1]).Some?
            && RegisterNumber(p[2]).Some? && p[3] !in labels)
    ensures var r, p := AssembleLine(line, labels, addr), Tokens(line);
      r.UndefinedLabel? ==> r.name == if p[0] == "j" then p[1] else p[3]
  {
    var p := Tokens(line);
    OpcodeTable();
    MnemonicsDisjoint();
    if p != [] {
      Dispatch(line, labels, addr);
    }
  }

  /**
   * A line raises an uncaught exception exactly when a known mnemonic has too few operands
   * (IndexError), or a register, or outside branches the immediate, that is not an integer
   * (ValueError).
   */
  lemma CrashExactly(line: string, labels: map<string, nat>, addr: nat)
    ensures var p := Tokens(line);
      AssembleLine(line, labels, addr) == Crash <==>
        || (|p| >= 1 && p[0] in RTypeMnemonics
            && (|p| < 4 || RegisterNumber(p[1]).None? || RegisterNumber(p[2]).None? || RegisterNumber(p[3]).None?))
        || (|p| >= 1 && p[0] in ITypeMnemonics
            && (|p| < 4 || RegisterNumber(p[1]).None? || RegisterNumber(p[2]).None?
                || (p[0] !in BranchMnemonics && ParseInt(p[3]).None?)))
        || (|p| == 1 && p[0] == "j")
  {
    var p := Tokens(line);
    OpcodeTable();
    MnemonicsDisjoint();
    if p != [] {
      Dispatch(line, labels, addr);
    }
  }

  /**
   * Whether a line gives code, and what it gives when it does not, depend on the names in
   * the label table but not on the addresses bound to them nor on the line's own address.
   */
  lemma OutcomeIgnoresAddresses(line: string, labels: map<string, nat>, labels': map<string, nat>, addr: nat, addr': nat)
    requires labels.Keys == labels'.Keys
    ensures AssembleLine(line, labels, addr).Code? == AssembleLine(line, labels', addr').Code?
    ensures !AssembleLine(line, labels, addr).Code? ==> AssembleLine(line, labels, addr) == AssembleLine(line, labels', addr')
  {
    var p := Tokens(line);
    if p != [] {
      Dispatch(line, labels, addr);
      Dispatch(line, labels', addr');
    }
  }

  lemma RemoveAbsent(s: string, c: char)
    requires c !in s
    ensures RemoveChar(s, c) == s
  {
    if s != [] {
      assert s == [s[0]] + s[1..];
      RemoveAbsent(s[1..], c);
    }
  }

  /** `register_number('$' + str(n)) == n`: the resolver reads back every register number written the usual way. */
  lemma RegisterRoundTrip(n: int)
    ensures RegisterNumber("$" + ShowInt(n)) == Some(n)
  {
    var t := ShowInt(n);
    var m: nat := if n < 0 then -n else n;
    var d := Digits(m, 10);
    assert DigitValue('$') == 16;
    assert '$' !in d by {
      assert forall i :: 0 <= i < |d| ==> DigitValue(d[i]) < 10;
    }
    assert t == if n < 0 then "-" + d else d;
    assert '$' !in t;
    assert ("$" + t)[1..] == t;
    RemoveAbsent(t, '$');
    assert RemoveChar("$" + t, '$') == t;
    ParseShowInt(n);
  }

  predicate IsSeparator(c: char) {
    c == ',' || c == '(' || c == ')'
  }

  lemma ReplaceAbsent(s: string, c: char, d: char)
    requires c !in s
    ensures ReplaceChar(s, c, d) == s
  {
  }

  lemma {:induction false} JoinAbsent(ws: seq<string>, c: char)
    requires c != ' ' && forall w :: w in ws ==> c !in w
    ensures c !in JoinWith(ws, " ")
  {
    if |ws| > 1 {
      assert ws[0] in ws;
      assert forall w :: w in ws[1..] ==> w in ws;
      JoinAbsent(ws[1..], c);
    } else if |ws| == 1 {
      assert ws[0] in ws;
    }
  }

  /** Tokens written one space apart, with no separators in them, are tokenized back unchanged. */
  lemma TokensRoundTrip(ws: seq<string>)
    requires forall w :: w in ws ==> IsWord(w) && ',' !in w && '(' !in w && ')' !in w
    ensures Tokens(JoinWith(ws, " ")) == ws
  {
    var line := JoinWith(ws, " ");
    JoinAbsent(ws, ',');
    JoinAbsent(ws, '(');
    JoinAbsent(ws, ')');
    ReplaceAbsent(line, ',', ' ');
    ReplaceAbsent(line, '(', ' ');
    ReplaceAbsent(line, ')', ' ');
    SplitJoinRoundTrip(ws);
  }

  /** A line has no tokens, and so gives no code, exactly when it holds only whitespace and separators. */
  lemma TokensEmpty(line: string)
    ensures Tokens(line) == [] <==> forall i :: 0 <= i < |line| ==> IsSpace(line[i]) || IsSeparator(line[i])
  {
    var t := ReplaceChar(ReplaceChar(ReplaceChar(line, ',', ' '), '(', ' '), ')', ' ');
    assert forall i :: 0 <= i < |line| ==> t[i] == if IsSeparator(line[i]) then ' ' else line[i];
  }

  /** The separator replacement `assemble_line` applies: each ',', '(' and ')' becomes a space, every other character stays. */
  lemma Blanked(line: string)
    ensures var t := ReplaceChar(ReplaceChar(ReplaceChar(line, ',', ' '), '(', ' '), ')', ' ');
      |t| == |line| && forall i :: 0 <= i < |line| ==> t[i] == if IsSeparator(line[i]) then ' ' else line[i]
  {
  }

  /** A comma or parenthesis anywhere in a line tokenizes exactly as a space in its place would. */
  lemma SeparatorIsSpace(a: string, b: string, c: char)
    requires IsSeparator(c)
    ensures Tokens(a + [c] + b) == Tokens(a + " " + b)
  {
    var x, y := a + [c] + b, a + " " + b;
    var tx := ReplaceChar(ReplaceChar(ReplaceChar(x, ',', ' '), '(', ' '), ')', ' ');
    var ty := ReplaceChar(ReplaceChar(ReplaceChar(y, ',', ' '), '(', ' '), ')', ' ');
    Blanked(x);
    Blanked(y);
    assert forall i :: 0 <= i < |x| ==> tx[i] == ty[i] by {
      forall i | 0 <= i < |x|
        ensures tx[i] == ty[i]
      {
        if i != |a| {
          assert x[i] == y[i];
        }
      }
    }
    assert tx == ty;
  }

  /** The break between two tokens: whitespace, commas and parentheses, at least one of them. */
  predicate IsGap(g: string) {
    g != [] && forall i :: 0 <= i < |g| ==> IsSpace(g[i]) || IsSeparator(g[i])
  }

  /**
   * A token followed by any break of whitespace, commas and parentheses is the first token
   * of the line, and the tokens of the rest follow it.
   */
  lemma TokensWordGap(w: string, g: string, rest: string)
    requires IsWord(w) && ',' !in w && '(' !in w && ')' !in w && IsGap(g)
    ensures Tokens(w + g + rest) == [w] + Tokens(rest)
  {
    var x := w + g + rest;
    var tx := ReplaceChar(ReplaceChar(ReplaceChar(x, ',', ' '), '(', ' '), ')', ' ');
    var tg := ReplaceChar(ReplaceChar(ReplaceChar(g, ',', ' '), '(', ' '), ')', ' ');
    var tr := ReplaceChar(ReplaceChar(ReplaceChar(rest, ',', ' '), '(', ' '), ')', ' ');
    Blanked(x);
    Blanked(g);
    Blanked(rest);
    assert forall i :: 0 <= i < |w| ==> !IsSeparator(w[i]) by {
      forall i | 0 <= i < |w|
        ensures !IsSeparator(w[i])
      {
        assert w[i] in w;
      }
    }
    assert forall i :: 0 <= i < |x| ==> tx[i] == (w + (tg + tr))[i] by {
      forall i | 0 <= i < |x|
        ensures tx[i] == (w + (tg + tr))[i]
      {
        if i < |w| {
          assert x[i] == w[i];
        } else if i < |w| + |g| {
          assert x[i] == g[i - |w|];
        } else {
          assert x[i] == rest[i - |w| - |g|];
        }
      }
    }
    assert tx == w + (tg + tr);
    assert AllSpace(tg);
    SplitWordFirst(w, tg + tr);
    SplitSpaceRun(tg, tr);
  }

  /** A single token with nothing around it is its own only token. */
  lemma TokensWord(w: string)
    requires IsWord(w) && ',' !in w && '(' !in w && ')' !in w
    ensures Tokens(w) == [w]
  {
    assert JoinWith([w], " ") == w;
    TokensRoundTrip([w]);
  }

  /** A token that tokenizing leaves whole: no whitespace and no separators. */
  predicate Token(w: string) {
    IsWord(w) && ',' !in w && '(' !in w && ')' !in w
  }

  /** A last token, followed by nothing or by a break. */
  lemma LastToken(w: string, tail: string)
    requires Token(w) && (tail == [] || IsGap(tail))
    ensures Tokens(w + tail) == [w]
  {
    if tail == [] {
      assert w + tail == w;
      TokensWord(w);
    } else {
      assert w + tail == w + tail + [];
      assert Tokens([]) == [];
      TokensWordGap(w, tail, []);
    }
  }

  lemma TwoTokens(w0: string, w1: string, g1: string, tail: string)
    requires Token(w0) && Token(w1) && IsGap(g1) && (tail == [] || IsGap(tail))
    ensures Tokens(w0 + g1 + (w1 + tail)) == [w0, w1]
  {
    LastToken(w1, tail);
    TokensWordGap(w0, g1, w1 + tail);
  }

  lemma ThreeTokens(w0: string, w1: string, w2: string, g1: string, g2: string, tail: string)
    requires Token(w0) && Token(w1) && Token(w2) && IsGap(g1) && IsGap(g2) && (tail == [] || IsGap(tail))
    ensures Tokens(w0 + g1 + (w1 + g2 + (w2 + tail))) == [w0, w1, w2]
  {
    TwoTokens(w1, w2, g2, tail);
    TokensWordGap(w0, g1, w1 + g2 + (w2 + tail));
    assert [w0] + [w1, w2] == [w0, w1, w2];
  }

  /**
   * Four tokens separated by breaks of whitespace, commas and parentheses, and optionally
   * followed by one, tokenize as those four tokens.
   */
  lemma FourTokens(w0: string, w1: string, w2: string, w3: string, g1: string, g2: string, g3: string, tail: string)
    requires Token(w0) && Token(w1) && Token(w2) && Token(w3)
    requires IsGap(g1) && IsGap(g2) && IsGap(g3) && (tail == [] || IsGap(tail))
    ensures Tokens(w0 + g1 + (w1 + g2 + (w2 + g3 + (w3 + tail)))) == [w0, w1, w2, w3]
  {
    ThreeTokens(w1, w2, w3, g2, g3, tail);
    TokensWordGap(w0, g1, w1 + g2 + (w2 + g3 + (w3 + tail)));
    assert [w0] + [w1, w2, w3] == [w0, w1, w2, w3];
  }

  lemma NumeralConcat(a: string, b: string, base: nat)
    ensures IsNumeral(a + b, base) <==> IsNumeral(a, base) && IsNumeral(b, base)
  {
    if IsNumeral(a + b, base) {
      assert forall i :: 0 <= i < |a| ==> a[i] == (a + b)[i];
      assert forall i :: 0 <= i < |b| ==> b[i] == (a + b)[|a| + i];
    }
  }

  /** `format(n, '05b')` and its kin are binary numerals exactly for non-negative `n`; a negative one starts with '-'. */
  lemma FormatBinaryNumeral(n: int, w: nat)
    requires w >= 1
    ensures IsNumeral(FormatBinary(n, w), 2) <==> n >= 0
  {
    if n >= 0 {
      FormatNatValue(n, 2, w);
    } else {
      assert FormatBinary(n, w)[0] == '-';
    }
  }

  /**
   * The bits `parse_r_type` builds are a binary numeral, which the encode pass can read
   * with `int(bits, 2)`, exactly when no register is negative.
   */
  lemma RTypeBinaryExactly(parts: seq<string>, rd: int, rs: int, rt: int)
    requires |parts| >= 4 && parts[0] in RTypeMnemonics
    requires RegisterNumber(parts[1]) == Some(rd) && RegisterNumber(parts[2]) == Some(rs)
    requires RegisterNumber(parts[3]) == Some(rt)
    ensures ParseRType(parts).Code?
    ensures IsNumeral(ParseRType(parts).bits, 2) <==> rd >= 0 && rs >= 0 && rt >= 0
  {
    FunctTable();
    var a, b, c := FormatBinary(rs, 5), FormatBinary(rt, 5), FormatBinary(rd, 5);
    FormatBinaryNumeral(rs, 5);
    FormatBinaryNumeral(rt, 5);
    FormatBinaryNumeral(rd, 5);
    assert RTypeOpcode == Zeros(6) && ShamtBits == Zeros(5);
    NumeralConcat(RTypeOpcode, a, 2);
    NumeralConcat(RTypeOpcode + a, b, 2);
    NumeralConcat(RTypeOpcode + a + b, c, 2);
    NumeralConcat(RTypeOpcode + a + b + c, ShamtBits, 2);
    NumeralConcat(RTypeOpcode + a + b + c + ShamtBits, FunctBits[parts[0]], 2);
  }

  /**
   * The bits `parse_i_type` builds, when it builds any, are a binary numeral exactly when
   * neither register is negative (the immediate is always masked to a non-negative number).
   */
  lemma ITypeBinaryExactly(parts: seq<string>, labels: map<string, nat>, addr: nat, rt: int, rs: int)
    requires |parts| >= 4 && parts[0] in ITypeMnemonics
    requires RegisterNumber(parts[1]) == Some(rt) && RegisterNumber(parts[2]) == Some(rs)
    requires ParseIType(parts, labels, addr).Code?
    ensures IsNumeral(ParseIType(parts, labels, addr).bits, 2) <==> rt >= 0 && rs >= 0
  {
    OpcodeTable();
    var op := OpcodeBits[parts[0]];
    var a, b := FormatBinary(rs, 5), FormatBinary(rt, 5);
    FormatBinaryNumeral(rs, 5);
    FormatBinaryNumeral(rt, 5);
    var bits := ParseIType(parts, labels, addr).bits;
    var imm := if parts[0] in BranchMnemonics then BranchOffset(labels[parts[3]], addr)
               else ParseInt(parts[3]).value % 0x10000;
    assert bits == op + a + b + FormatBinary(imm, 16);
    FormatBinaryNumeral(imm, 16);
    NumeralConcat(op, a, 2);
    NumeralConcat(op + a, b, 2);
    NumeralConcat(op + a + b, FormatBinary(imm, 16), 2);
  }
}
