# A two-pass assembler for a MIPS32 subset, modelled in Dafny

`mips_assembler.py` turns a MIPS assembly source file into an object listing. Each listing line holds an
instruction address and its machine word, both as 8-digit lower-case hex. It works in two passes over the
lines of the file:

- **Pass 1, the label pass.** It walks the lines with an address counter that starts at `0x00400000`.
  - Blank lines and `#` comments are skipped.
  - Each `name:` prefix binds `name` to the counter; a later definition overwrites an earlier one.
  - The counter advances by 4 only when text remains after the label.
- **Pass 2, the encode pass.** It walks the lines again from `0x00400000`.
  - Blank lines, comment lines and lines ending in `:` are skipped.
  - The text after any label is encoded with `assemble_line`.
  - A record is appended for each line that gives a word, and the counter advances only then.
  - A `KeyError` (a branch or jump to an undefined label) skips the line and leaves the counter unchanged.
  - Any other exception ends the program without output.

`assemble_line` tokenises a line. Commas and parentheses act as whitespace. It dispatches on the first
token:

- to the R-format encoder (`add sub and or sll srl sllv srlv`);
- to the I-format encoder (`addi andi lw sw` with a decimal immediate, `beq bne blez bgtz` with a label);
- to the J-format encoder (`j label`).

Each encoder builds the machine word as a string of binary digits by concatenating zero-filled fields from
string-keyed tables.

## The model

The project has six modules, one per file:

- `Opt` (option.dfy): an `Option` type.
- `Text` (text.dfy): the Python string operations the source relies on.
  - `strip()` and `split()` use the exact whitespace set of `str.isspace`.
  - Also `split(c)`, `replace`, the removal of one character, and `startswith`/`endswith`.
  - Lemmas prove that `split` undoes `join`, and that `c.join(s.split(c))` gives `s` back.
- `Numerals` (numerals.dfy):
  - `int(s, base)` for digit strings;
  - `format(n, '0{w}b')` and `format(n, '0{w}x')`, including Python's `-` sign inside the width and a field
    that grows when the value does not fit;
  - `int(s)` on an optional `-` followed by ASCII digits;
  - `str(n)`.

  It proves that formatting and parsing are inverse, and when a zero-filled field has exactly its width.
- `Encoder` (encoder.dfy):
  - the mnemonic tables;
  - `register_number`;
  - `parse_r_type`, `parse_i_type`, `parse_j_type` and `assemble_line` as functions over the bit string;
  - partner definitions: field extraction from a 32-bit word, the MIPS32 opcode and function codes, and the
    branch and jump destination a processor computes from the fields.

  The lemmas connect the two. An encoded word has the right fields, and branches and jumps land on their
  labels. Three "exactly when" lemmas characterise three outcomes of `assemble_line`:
  - no word;
  - an undefined label (the `KeyError`);
  - an uncaught `ValueError` or `IndexError`.

  A word is what remains. Further lemmas state how lines tokenise:
  - a comma or parenthesis tokenises exactly as a space;
  - any break of whitespace and separators divides one token from the next.
- `Assembler` (assembler.dfy): the two passes of `main`.
  - Each pass is both a fold over the lines (`LabelPass`, `EncodePass`) and an imperative loop proved to
    compute that fold (`CollectLabels`, `EncodeLines`).
  - The lemmas state:
    - what the label table holds;
    - that emitted addresses are consecutive words from `0x00400000`;
    - that the two passes agree on addresses exactly when no line that pass 1 counts is dropped by pass 2;
    - that every label then marks the address of the next record;
    - how the listing lines read back.
- `Scenarios` (scenarios.dfy): worked examples on concrete lines, each proved as a lemma.
  - `add $1, $2, $3` encodes as `0x00430820`, with or without its commas.
  - The one-line program `add $1 $2 $3` gives the listing `00400000 00430820`.
  - A backward `beq` gives offset `0xFFFE`.
  - Five example lines make the passes disagree:
    - `x: #c`;
    - an unknown mnemonic;
    - a line of separators only;
    - a jump to an undefined label;
    - a branch to an undefined label.
  - `a: b:` makes them disagree too.
  - The offset form `lw $8, 4($9)` crashes.

Outcomes of `assemble_line` are values of `LineResult`:

| value | Python behaviour |
|---|---|
| `Code(bits)` | the machine code string |
| `NoCode` | `None` |
| `UndefinedLabel(name)` | the `KeyError` |
| `Crash` | an uncaught `ValueError` or `IndexError` |

Pass 2's state is `Running(addr, records)`, or `Aborted` once an uncaught exception has ended the program.
A negative register number yields a `-` inside the bit string. `int(mc, 2)` then raises `ValueError`, which
the model follows as `Aborted`.

### Behaviour worth knowing

The model follows the code in each of these cases:

- A line holding only a label does not take an address slot (mips_assembler.py:90-91). This holds even though
  the label binds the address of the next instruction.
- The base-plus-offset form is not understood.
  - `lw $8, 4($9)` tokenises to `lw $8 4 $9` (`Scenarios.OffsetFormTokens`).
  - Then `int("$9")` raises `ValueError` (mips_assembler.py:45), and the program stops without output
    (`Scenarios.OffsetFormCrashes`).
- Some lines get a slot in pass 1 but give no record in pass 2. `Scenarios` proves this for each of these
  examples:
  - `x: #c`;
  - an unknown mnemonic (`nop`);
  - a line of separators only (`,`);
  - a jump to an undefined label (`j nowhere`);
  - a branch to an undefined label (`beq $1 $2 nowhere`);
  - `a: b:`, which ends with `:` and so is skipped by pass 2, while pass 1 keeps the text `b`.

  `Assembler.PassesAgree` characterises agreement exactly: the passes agree when no line pass 1 counts is
  dropped by pass 2, whatever kind of line it is.

## Model

| member | source | states |
|---|---|---|
| Encoder.FunctTable | mips_assembler.py:12-21 | the R-format function table has an entry for exactly the eight mnemonics `assemble_line` sends to `parse_r_type` |
| Encoder.OpcodeTable | mips_assembler.py:25-34 | the I-format opcode table has an entry for exactly the eight I-format mnemonics, and the four branch mnemonics are among them |
| Encoder.MnemonicsDisjoint | mips_assembler.py:64-68 | no mnemonic is dispatched to two encoders |
| Encoder.FunctCodes | mips_assembler.py:12-21 | each function-field string of the table read in binary is the MIPS32 function code of that instruction |
| Encoder.OpcodeCodes | mips_assembler.py:25-34 | each opcode string of the table read in binary is the MIPS32 opcode of that instruction |
| Encoder.RegisterRoundTrip | mips_assembler.py:3-4 | `register_number('$' + str(n))` is `n` for every integer `n` |
| Encoder.RTypeWord | mips_assembler.py:6-22 | for registers in 0..31 the R-format bits are 32 binary digits whose word has opcode 0, rs = second operand, rt = third, rd = first, shamt 0 and the MIPS32 function code; the word is `rs*2^21 + rt*2^16 + rd*2^11 + funct` |
| Encoder.RTypeBinaryExactly | mips_assembler.py:6-22 | the R-format bits are a binary numeral (so `int(mc, 2)` succeeds) exactly when no register is negative |
| Encoder.ImmediateWord | mips_assembler.py:24-36 | for `addi andi lw sw` with registers in 0..31 and immediate `k`, the word has the MIPS32 opcode, rs = second operand, rt = first, low 16 bits `k mod 65536`, which sign-extend back to `k` when `k` fits in 16 bits |
| Encoder.BranchWord | mips_assembler.py:37-46 | for a branch to a defined label the low 16 bits are `((label - addr - 4) div 4) mod 65536`, and for word-aligned addresses in reach the branch destination is the label |
| Encoder.BranchRoundTrip | mips_assembler.py:42-43 | the encoded branch offset, sign-extended, takes the instruction after the branch back to a word-aligned label in reach |
| Encoder.ITypeBinaryExactly | mips_assembler.py:24-46 | the I-format bits are a binary numeral exactly when neither register is negative |
| Encoder.JumpWord | mips_assembler.py:48-54 | for a defined label the jump word has opcode 2 and `(label >> 2) & 0x3FFFFFF` in the low 26 bits; for a word-aligned label in the jump's 256 MB region the jump lands on the label |
| Encoder.JumpRoundTrip | mips_assembler.py:53 | the 26-bit jump field takes a jump back to a word-aligned label in its region |
| Encoder.SignExtendTruncate | mips_assembler.py:43 | masking with `0xFFFF` then sign-extending gives back every 16-bit signed value |
| Encoder.TokensRoundTrip | mips_assembler.py:58-59 | words without whitespace or separators, written one space apart, tokenise back to themselves |
| Encoder.TokensEmpty | mips_assembler.py:58-62 | a line has no tokens exactly when it holds only whitespace, commas and parentheses |
| Encoder.SeparatorIsSpace | mips_assembler.py:58-59 | a comma or parenthesis anywhere in a line gives the same tokens as a space in its place |
| Encoder.TokensWordGap | mips_assembler.py:58-59 | a token followed by any non-empty break of whitespace, commas and parentheses is the first token, and the tokens of the rest follow |
| Encoder.FourTokens | mips_assembler.py:58-59 | four tokens separated by such breaks, optionally with one break after them, tokenise as exactly those four |
| Encoder.NoCodeExactly | mips_assembler.py:61-70 | a line gives no code exactly when it has no tokens or its first token is not a known mnemonic |
| Encoder.UndefinedLabelExactly | mips_assembler.py:37-40 | a `KeyError` arises exactly for a jump, or a branch with two integer registers, whose label is undefined, and it names that label |
| Encoder.CrashExactly | mips_assembler.py:3-54 | a line raises an uncaught exception exactly when a known mnemonic has too few operands, a register is not an integer, or a non-branch immediate is not an integer |
| Encoder.OutcomeIgnoresAddresses | mips_assembler.py:56-70 | whether a line gives code, and which failure it gives otherwise, depend on the names in the label table and not on any address |
| Assembler.LabelPass | mips_assembler.py:76-91 | after pass 1 the counter is `0x00400000 + 4 * (lines with text after any label)`, and the counter and every label are word-aligned and at least `0x00400000` |
| Assembler.LabelStepKeeps | mips_assembler.py:80-91 | one line of pass 1 keeps the table aligned and advances the counter by 4 exactly for a line with text after its label |
| Assembler.LabelDefined | mips_assembler.py:84-86 | a name is in the label table exactly when some counted line defines it |
| Assembler.LabelAddress | mips_assembler.py:84-91 | a label is bound to the counter at its last definition: `0x00400000 + 4 *` the slots before that line |
| Assembler.CollectLabels | mips_assembler.py:76-91 | the label loop, with its in-place table update and counter, computes `LabelPass` |
| Assembler.RecordAddresses | mips_assembler.py:96-112 | while running, pass 2's records have consecutive addresses `0x00400000, +4, …` and the counter is just past the last one |
| Assembler.EncodeStepCounts | mips_assembler.py:98-109 | one line of pass 2 adds a record exactly when it is not skipped and gives code |
| Assembler.AbortIsFinal | mips_assembler.py:105-112 | once an uncaught exception ends the run, later lines change nothing |
| Assembler.EmittedCount | mips_assembler.py:96-112 | a run that finishes holds one record per line that gives code |
| Assembler.EmitsOccupies | mips_assembler.py:80-104 | every line pass 2 encodes into a word has a slot in pass 1 |
| Assembler.EmittedSlots | mips_assembler.py:76-112 | pass 2 emits at most as many records as pass 1 counts slots, and exactly as many when no slotted line is dropped |
| Assembler.PassesAgree | mips_assembler.py:76-112 | pass 2's final address never exceeds pass 1's, and they are equal exactly when no line pass 1 counts is dropped by pass 2 |
| Assembler.LabelMarksNextRecord | mips_assembler.py:76-112 | when no line is dropped, each label's address is the address pass 2 gives the next record after its definition |
| Assembler.FormatRecordFields | mips_assembler.py:108 | a record that fits 32 bits prints as 17 characters: two 8-digit hex fields around one space that read back as its address and word |
| Assembler.OutputAddresses | mips_assembler.py:108-109 | the address field of output line `k` reads back as `0x00400000 + 4k` |
| Assembler.EmitRecord | mips_assembler.py:106-109 | one encoded line appends its listing line and advances the counter, or reports the abort, exactly as `Absorb` says |
| Assembler.EncodeLines | mips_assembler.py:96-112 | the encode loop, with its appends and counter, computes the listing of `EncodePass` |
| Assembler.AssembleSource | mips_assembler.py:76-112 | both loops in sequence compute `Assemble` |
| Scenarios.AddWord | mips_assembler.py:6-22 | `add $1 $2 $3` encodes as `0x00430820` at any address and with any labels |
| Scenarios.AddCommaTokens | mips_assembler.py:58-59 | `add $1, $2, $3` tokenises as `add`, `$1`, `$2`, `$3` |
| Scenarios.AddCommaWord | mips_assembler.py:56-65 | `add $1, $2, $3` encodes as `0x00430820` at any address and with any labels |
| Scenarios.AddProgram | mips_assembler.py:76-112 | the one-line program `add $1 $2 $3` gives the listing `00400000 00430820` |
| Scenarios.BackwardBranch | mips_assembler.py:37-43 | `beq $1 $2 top` one word after `top` has offset field `0xFFFE` and branches to `top` |
| Scenarios.OffsetFormTokens | mips_assembler.py:58-59 | `lw $8, 4($9)` tokenises as `lw`, `$8`, `4`, `$9`, so the base register sits where the immediate is read |
| Scenarios.OffsetFormCrashes | mips_assembler.py:45 | the offset form `lw $8, 4($9)` raises an uncaught `ValueError` |
| Scenarios.CommentAfterLabel | mips_assembler.py:84-107 | `x: #c` takes a slot in pass 1 but gives no word in pass 2 |
| Scenarios.UnknownMnemonic | mips_assembler.py:64-70 | `nop` takes a slot in pass 1 but gives no word |
| Scenarios.SeparatorsOnly | mips_assembler.py:58-62 | `,` takes a slot in pass 1 but has no tokens, so gives no word |
| Scenarios.BranchToUndefinedLabel | mips_assembler.py:37-40 | `beq $1 $2 nowhere` with `nowhere` undefined takes a slot but gives an undefined-label error and no word |
| Scenarios.JumpToUndefinedLabel | mips_assembler.py:50-52 | `j nowhere` with `nowhere` undefined takes a slot but gives an undefined-label error and no word |
| Scenarios.TwoLabels | mips_assembler.py:84-101 | `a: b:` takes a slot in pass 1 but is skipped by pass 2 |
| Numerals.FormatNatValue | mips_assembler.py:22 | a zero-filled format of `n` reads back as `n`, is at least `w` long, and exactly `w` long when `n < base^w` |
| Numerals.ParseShowInt | mips_assembler.py:45 | `int(str(n)) == n` |
| Text.SplitJoinRoundTrip | mips_assembler.py:59 | `" ".join(ws).split() == ws` for words without whitespace |
| Text.SplitSpaceRun | mips_assembler.py:59 | a run of whitespace at the front of a string does not change `split()` |
| Text.SplitOnJoin | mips_assembler.py:85-89 | joining the pieces of `s.split(c)` with `c` gives `s` back |

## Left out

- Reading the source file, writing the `.obj` file and deriving its name (mips_assembler.py:72-74, :114-117) are I/O. `Assemble` returns the listing lines that would be written.
- The command line (mips_assembler.py:119-123) is left out.
- The console messages (mips_assembler.py:87, :93, :111) are dropped. The undefined label's name is kept in `UndefinedLabel`.
- `Numerals.ParseInt` accepts only an optional `-` followed by ASCII digits. Python's `int()` also takes a leading `+`, underscores, surrounding whitespace and non-ASCII digits; the model treats those as the `ValueError` case.
- Register numbers outside 0..31 are modelled as Python formats them: the field grows, and so does the word. The layout lemmas (`Encoder.RTypeWord`, `Encoder.ImmediateWord`, `Encoder.BranchWord`) assume registers in 0..31.
- Each uncaught exception is one `Crash` value. The model does not tell a `ValueError` from an `IndexError`, since both end the program the same way.
