/**
 * Worked lines and programs: the results the assembler gives for particular inputs,
 * including each kind of line on which its two passes part ways.
 */
module Scenarios {
  import opened Opt
  import opened Text
  import opened Numerals
  import opened Encoder
  import opened Assembler

  /** Printable ASCII other than the space and the separators is never whitespace. */
  lemma PlainWord(w: string)
    requires forall i :: 0 <= i < |w| ==> '!' <= w[i] <= '~' && w[i] != ',' && w[i] != '(' && w[i] != ')'
    ensures NoSpace(w) && ',' !in w && '(' !in w && ')' !in w
  {
  }

  lemma Unpadded(line: string)
    requires |line| > 0 && !IsSpace(line[0]) && !IsSpace(line[|line| - 1])
    ensures Strip(line) == line
  {
    assert line[0..] == line;
    assert line[..|line| - 0] == line;
  }

  lemma SmallRegisters()
    ensures RegisterNumber("$1") == Some(1) && RegisterNumber("$2") == Some(2)
    ensures RegisterNumber("$3") == Some(3)
  {
    assert ShowInt(1) == "1" && ShowInt(2) == "2" && ShowInt(3) == "3";
    RegisterRoundTrip(1);
    RegisterRoundTrip(2);
    RegisterRoundTrip(3);
  }

  lemma AddTokens()
    ensures Tokens("add $1 $2 $3") == ["add", "$1", "$2", "$3"]
  {
    var ws := ["add", "$1", "$2", "$3"];
    assert JoinWith(ws, " ") == "add $1 $2 $3";
    PlainWord("add"); PlainWord("$1"); PlainWord("$2"); PlainWord("$3");
    TokensRoundTrip(ws);
  }

  /** `add $1, $2, $3`, written with the usual commas, has the same tokens as `add $1 $2 $3`. */
  lemma AddCommaTokens()
    ensures Tokens("add $1, $2, $3") == ["add", "$1", "$2", "$3"]
  {
    PlainWord("add"); PlainWord("$1"); PlainWord("$2"); PlainWord("$3");
    assert IsGap(" ") && IsGap(", ");
    assert "add $1, $2, $3" == "add" + " " + ("$1" + ", " + ("$2" + ", " + ("$3" + "")));
    FourTokens("add", "$1", "$2", "$3", " ", ", ", ", ", "");
  }

  /** The tokens of `add $1 $2 $3` encode as 0x00430820. */
  lemma AddParts()
    ensures var c := ParseRType(["add", "$1", "$2", "$3"]);
      c.Code? && IsNumeral(c.bits, 2) && Value(c.bits, 2) == 0x00430820
  {
    var parts := ["add", "$1", "$2", "$3"];
    SmallRegisters();
    assert RegisterNumber(parts[1]) == Some(1) && RegisterNumber(parts[2]) == Some(2);
    assert RegisterNumber(parts[3]) == Some(3);
    RTypeWord(parts, 1, 2, 3);
    assert MipsFunct(parts[0]) == 0x20;
    assert WordOf(ParseRType(parts).bits) == 2 * 0x200000 + 3 * 0x10000 + 1 * 0x800 + 0x20;
  }

  /** `add $1 $2 $3` encodes as 0x00430820, wherever it sits and whatever the labels. */
  lemma AddWord(labels: map<string, nat>, addr: nat)
    ensures var c := AssembleLine("add $1 $2 $3", labels, addr);
      c.Code? && IsNumeral(c.bits, 2) && Value(c.bits, 2) == 0x00430820
  {
    AddTokens();
    Dispatch("add $1 $2 $3", labels, addr);
    AddParts();
  }

  /** Written with the usual commas, `add $1, $2, $3` encodes as 0x00430820 too. */
  lemma AddCommaWord(labels: map<string, nat>, addr: nat)
    ensures var c := AssembleLine("add $1, $2, $3", labels, addr);
      c.Code? && IsNumeral(c.bits, 2) && Value(c.bits, 2) == 0x00430820
  {
    AddCommaTokens();
    Dispatch("add $1, $2, $3", labels, addr);
    AddParts();
  }

  /** Pass 2 hands `add $1 $2 $3` to the encoder unchanged. */
  lemma AddLineText()
    ensures !Skipped("add $1 $2 $3") && Instruction("add $1 $2 $3") == "add $1 $2 $3"
  {
    var line := "add $1 $2 $3";
    Unpadded(line);
    assert ':' !in line;
  }

  lemma AddPass(labels: map<string, nat>)
    ensures EncodePass(["add $1 $2 $3"], labels) == Running(TextBase + 4, [Record(TextBase, 0x00430820)])
  {
    var line := "add $1 $2 $3";
    var lines := [line];
    AddLineText();
    AddWord(labels, TextBase);
    var c := AssembleLine(line, labels, TextBase);
    assert lines[..0] == [];
    assert EncodePass(lines, labels) == EncodeStep(Running(TextBase, []), labels, line);
    assert EncodeStep(Running(TextBase, []), labels, line) == Absorb(TextBase, [], c);
  }

  lemma HexAddress()
    ensures FormatNat(0x00400000, 16, 8) == "00400000"
  {
    assert Digits(0x4, 16) == "4";
    assert Digits(0x40, 16) == "40";
    assert Digits(0x400, 16) == "400";
    assert Digits(0x4000, 16) == "4000";
    assert Digits(0x40000, 16) == "40000";
    assert Digits(0x400000, 16) == "400000";
    assert Zeros(2) == "00";
  }

  lemma HexAddWord()
    ensures FormatNat(0x00430820, 16, 8) == "00430820"
  {
    assert Digits(0x4, 16) == "4";
    assert Digits(0x43, 16) == "43";
    assert Digits(0x430, 16) == "430";
    assert Digits(0x4308, 16) == "4308";
    assert Digits(0x43082, 16) == "43082";
    assert Digits(0x430820, 16) == "430820";
    assert Zeros(2) == "00";
  }

  lemma AddOutputLine(a: string, w: string)
    requires a == "00400000" && w == "00430820"
    ensures a + " " + w == "00400000 00430820"
  {
  }

  lemma AddRecordLine()
    ensures FormatRecord(Record(TextBase, 0x00430820)) == "00400000 00430820"
  {
    HexAddress();
    HexAddWord();
    AddOutputLine(FormatNat(0x00400000, 16, 8), FormatNat(0x00430820, 16, 8));
  }

  /** A one-line program `add $1 $2 $3` assembles to the single output line `00400000 00430820`. */
  lemma AddProgram()
    ensures Assemble(["add $1 $2 $3"]) == Some(["00400000 00430820"])
  {
    var r, lines := Record(TextBase, 0x00430820), ["add $1 $2 $3"];
    var labels := LabelPass(lines).labels;
    AddPass(labels);
    AddRecordLine();
    assert Render(Running(TextBase + 4, [r])).value == [FormatRecord(r)];
  }

  lemma BranchTokens()
    ensures Tokens("beq $1 $2 top") == ["beq", "$1", "$2", "top"]
  {
    var ws := ["beq", "$1", "$2", "top"];
    assert JoinWith(ws, " ") == "beq $1 $2 top";
    PlainWord("beq"); PlainWord("$1"); PlainWord("$2"); PlainWord("top");
    TokensRoundTrip(ws);
  }

  /**
   * `beq $1 $2 top` one word after `top` branches back by two words: its offset field is
   * 0xFFFE, and taking the branch lands on `top`.
   */
  lemma BackwardBranch(labels: map<string, nat>)
    requires "top" in labels && labels["top"] == TextBase
    ensures var c := AssembleLine("beq $1 $2 top", labels, TextBase + 4);
      && c.Code? && IsNumeral(c.bits, 2)
      && ImmediateField(WordOf(c.bits)) == 0xFFFE
      && BranchDestination(TextBase + 4, WordOf(c.bits)) == TextBase
  {
    BranchTokens();
    Dispatch("beq $1 $2 top", labels, TextBase + 4);
    BranchParts(labels);
  }

  lemma BranchParts(labels: map<string, nat>)
    requires "top" in labels && labels["top"] == TextBase
    ensures var c := ParseIType(["beq", "$1", "$2", "top"], labels, TextBase + 4);
      && c.Code? && IsNumeral(c.bits, 2)
      && ImmediateField(WordOf(c.bits)) == 0xFFFE
      && BranchDestination(TextBase + 4, WordOf(c.bits)) == TextBase
  {
    SmallRegisters();
    BranchWord(["beq", "$1", "$2", "top"], labels, TextBase + 4, 1, 2);
    assert BranchOffset(TextBase, TextBase + 4) == 0xFFFE by {
      assert (TextBase - (TextBase + 4) - 4) / 4 == -2;
    }
  }

  /**
   * The base-plus-offset form `lw $8, 4($9)` tokenizes as `lw $8 4 $9`: the parentheses only
   * separate, so the offset lands in the register slot and the base register in the immediate slot.
   */
  lemma OffsetFormTokens()
    ensures Tokens("lw $8, 4($9)") == ["lw", "$8", "4", "$9"]
  {
    PlainWord("lw"); PlainWord("$8"); PlainWord("4"); PlainWord("$9");
    assert IsGap(" ") && IsGap(", ") && IsGap("(") && IsGap(")");
    assert "lw $8, 4($9)" == "lw" + " " + ("$8" + ", " + ("4" + "(" + ("$9" + ")")));
    FourTokens("lw", "$8", "4", "$9", " ", ", ", "(", ")");
  }

  /** A token starting with '$' is not an integer. */
  lemma NotAnInteger(s: string)
    requires |s| > 0 && s[0] == '$'
    ensures ParseInt(s) == None
  {
    assert DigitValue(s[0]) == 16;
  }

  /**
   * The MIPS base-plus-offset form `lw $8, 4($9)` is not understood: the immediate slot holds
   * `$9`, `int('$9')` raises ValueError, and nothing catches it.
   */
  lemma OffsetFormCrashes(labels: map<string, nat>, addr: nat)
    ensures AssembleLine("lw $8, 4($9)", labels, addr) == Crash
  {
    OffsetFormTokens();
    Dispatch("lw $8, 4($9)", labels, addr);
    OffsetPartsCrash(labels, addr);
  }

  lemma OffsetPartsCrash(labels: map<string, nat>, addr: nat)
    ensures ParseIType(["lw", "$8", "4", "$9"], labels, addr) == Crash
  {
    NotAnInteger("$9");
  }

  // ---- Lines the two passes count differently ----

  lemma CommentAfterLabelText()
    ensures Counted("x: #c") && !Skipped("x: #c") && Instruction("x: #c") == "#c"
  {
    var line := "x: #c";
    Unpadded(line);
    assert SplitOn(line, ':')[1] == " #c" by {
      assert IndexOf(line, ':') == 1;
      assert line[2..] == " #c";
      assert IndexOf(" #c", ':') == 3;
      assert " #c"[..3] == " #c";
    }
    assert Strip(" #c") == "#c" by {
      assert LeadingSpaces(" #c") == 1;
      assert TrimmedLength("#c") == 2;
      assert " #c"[1..] == "#c" && "#c"[..2] == "#c";
    }
  }

  /** Every mnemonic starts with a lower-case letter. */
  lemma NotMnemonic(t: string)
    requires |t| > 0 && !('a' <= t[0] <= 'z')
    ensures t !in RTypeMnemonics && t !in ITypeMnemonics && t != "j"
  {
  }

  /** `x: #c`: the comment after the label takes a slot in pass 1 and gives no code in pass 2. */
  lemma CommentAfterLabel(labels: map<string, nat>)
    ensures Occupies("x: #c") && !Emits("x: #c", labels)
  {
    CommentAfterLabelText();
    CommentGivesNoCode(labels, TextBase);
  }

  lemma CommentGivesNoCode(labels: map<string, nat>, addr: nat)
    ensures AssembleLine("#c", labels, addr) == NoCode
  {
    assert JoinWith(["#c"], " ") == "#c";
    PlainWord("#c");
    TokensRoundTrip(["#c"]);
    NotMnemonic("#c");
    NoCodeExactly("#c", labels, addr);
  }

  /** An unknown mnemonic takes a slot in pass 1 and gives no code in pass 2. */
  lemma UnknownMnemonic(labels: map<string, nat>)
    ensures Occupies("nop") && !Emits("nop", labels)
  {
    var line := "nop";
    Unpadded(line);
    assert ':' !in line;
    assert JoinWith(["nop"], " ") == "nop";
    PlainWord("nop");
    TokensRoundTrip(["nop"]);
    NoCodeExactly(line, labels, TextBase);
  }

  /** A jump to an undefined label takes a slot in pass 1 and is skipped by pass 2. */
  lemma JumpToUndefinedLabel(labels: map<string, nat>)
    requires "nowhere" !in labels
    ensures Occupies("j nowhere") && !Emits("j nowhere", labels)
    ensures AssembleLine("j nowhere", labels, TextBase) == UndefinedLabel("nowhere")
  {
    var line := "j nowhere";
    Unpadded(line);
    assert ':' !in line;
    JumpTokens();
    Dispatch(line, labels, TextBase);
  }

  lemma JumpTokens()
    ensures Tokens("j nowhere") == ["j", "nowhere"]
  {
    assert JoinWith(["j", "nowhere"], " ") == "j nowhere";
    PlainWord("j");
    PlainWord("nowhere");
    TokensRoundTrip(["j", "nowhere"]);
  }

  /** A branch to an undefined label takes a slot in pass 1 and is skipped by pass 2. */
  lemma BranchToUndefinedLabel(labels: map<string, nat>)
    requires "nowhere" !in labels
    ensures Occupies("beq $1 $2 nowhere") && !Emits("beq $1 $2 nowhere", labels)
    ensures AssembleLine("beq $1 $2 nowhere", labels, TextBase) == UndefinedLabel("nowhere")
  {
    var line := "beq $1 $2 nowhere";
    Unpadded(line);
    assert ':' !in line;
    MissTokens();
    Dispatch(line, labels, TextBase);
    MissParts(labels);
  }

  lemma MissTokens()
    ensures Tokens("beq $1 $2 nowhere") == ["beq", "$1", "$2", "nowhere"]
  {
    var ws := ["beq", "$1", "$2", "nowhere"];
    assert JoinWith(ws, " ") == "beq $1 $2 nowhere";
    PlainWord("beq"); PlainWord("$1"); PlainWord("$2"); PlainWord("nowhere");
    TokensRoundTrip(ws);
  }

  lemma MissParts(labels: map<string, nat>)
    requires "nowhere" !in labels
    ensures ParseIType(["beq", "$1", "$2", "nowhere"], labels, TextBase) == UndefinedLabel("nowhere")
  {
    SmallRegisters();
  }

  /** A line of separators alone takes a slot in pass 1 but has no tokens, so gives no code. */
  lemma SeparatorsOnly(labels: map<string, nat>)
    ensures Occupies(",") && !Emits(",", labels)
  {
    var line := ",";
    Unpadded(line);
    assert ':' !in line;
    TokensEmpty(line);
    NoCodeExactly(line, labels, TextBase);
  }

  /** `a: b:` takes a slot in pass 1 for its text `b`, but pass 2 skips it for ending with ':'. */
  lemma TwoLabels(labels: map<string, nat>)
    ensures Occupies("a: b:") && !Emits("a: b:", labels)
  {
    var line := "a: b:";
    Unpadded(line);
    assert SplitOn(line, ':')[1] == " b" by {
      assert IndexOf(line, ':') == 1;
      assert line[2..] == " b:";
      assert IndexOf(" b:", ':') == 2;
      assert " b:"[..2] == " b";
    }
    assert Strip(" b") == "b" by {
      assert LeadingSpaces(" b") == 1;
      assert TrimmedLength("b") == 1;
      assert " b"[1..] == "b" && "b"[..1] == "b";
    }
    assert Skipped(line);
  }
}
