/**
 * The two passes of `main` in mips_assembler.py over the lines of a source file, and the
 * output records they produce.
 *
 * Pass 1 walks the lines with an address counter starting at 0x00400000, binds each label
 * to the counter and advances the counter by 4 for each line that still has text after its
 * label. Pass 2 walks the lines again from 0x00400000, encodes the text after any label,
 * records `"<address> <word>"` in 8-digit hex for each line that gives code and advances
 * the counter only for those lines. A line whose branch or jump names an undefined label
 * is skipped without advancing; a ValueError or IndexError ends the run with no output.
 *
 * Each pass is a function over the prefixes of the line list (`LabelPass`, `EncodePass`)
 * and a method with a loop (`CollectLabels`, `EncodeLines`) proved to compute it.
 */
module Assembler {
  import opened Opt
  import opened Text
  import opened Numerals
  import opened Encoder

  /** The address of the first instruction, where both passes start counting. */
  const TextBase: nat := 0x00400000

  /** `line.split(':')[0].strip()`: the label a line defines. */
  function LabelName(line: string): string {
    Strip(SplitOn(line, ':')[0])
  }

  /** The text after a label: `line.split(':')[1].strip()` when the line has a ':', else the line itself. */
  function Remainder(line: string): string {
    if ':' in line then Strip(SplitOn(line, ':')[1]) else line
  }

  // ---- Pass 1: the label table ----

  /** A line pass 1 looks at: not blank and not a comment once stripped. */
  predicate Counted(line: string) {
    var t := Strip(line);
    t != [] && !StartsWith(t, '#')
  }

  /** Line `line` binds label `name` in pass 1. */
  predicate Defines(line: string, name: string) {
    Counted(line) && ':' in Strip(line) && LabelName(Strip(line)) == name
  }

  /** Pass 1 gives this line an instruction slot: it is counted and has text after any label. */
  predicate Occupies(line: string) {
    Counted(line) && Remainder(Strip(line)) != []
  }

  /** The number of lines pass 1 gives a slot. */
  function Slots(lines: seq<string>): nat {
    if lines == [] then 0
    else Slots(lines[..|lines| - 1]) + if Occupies(lines[|lines| - 1]) then 1 else 0
  }

  /** The label table and the address counter. */
  datatype LabelState = LabelState(labels: map<string, nat>, addr: nat)

  /** The table and counter pass 1 holds after a prefix of the lines: every label sits on a word between the base and the counter. */
  predicate Aligned(st: LabelState) {
    && st.addr >= TextBase && st.addr % 4 == 0
    && forall name :: name in st.labels ==> TextBase <= st.labels[name] <= st.addr && st.labels[name] % 4 == 0
  }

  /** One line of pass 1. */
  function LabelStep(st: LabelState, line: string): LabelState {
    if !Counted(line) then st
    else
      var t := Strip(line);
      var labels := if ':' in t then st.labels[LabelName(t) := st.addr] else st.labels;
      LabelState(labels, if Remainder(t) != [] then st.addr + 4 else st.addr)
  }

  /**
   * Pass 1 over `lines`: the counter has moved one word for every line given a slot, and
   * every label is bound to a word address between the base and the counter.
   */
  function LabelPass(lines: seq<string>): (r: LabelState)
    ensures r.addr == TextBase + 4 * Slots(lines)
    ensures Aligned(r)
  {
    if lines == [] then LabelState(map[], TextBase)
    else
      var st := LabelPass(lines[..|lines| - 1]);
      LabelStepKeeps(st, lines[|lines| - 1]);
      LabelStep(st, lines[|lines| - 1])
  }

  /** One line of pass 1 keeps the table aligned and advances the counter by a word exactly for a line given a slot. */
  lemma LabelStepKeeps(st: LabelState, line: string)
    requires Aligned(st)
    ensures Aligned(LabelStep(st, line))
    ensures LabelStep(st, line).addr == st.addr + if Occupies(line) then 4 else 0
  {
  }

  /** One line of pass 1 adds to the table exactly the label the line defines. */
  lemma LabelStepKeys(st: LabelState, line: string, name: string)
    ensures name in LabelStep(st, line).labels <==> name in st.labels || Defines(line, name)
  {
  }

  /** The labels of pass 1's table are exactly the names some line defines. */
  lemma {:induction false} LabelDefined(lines: seq<string>, name: string)
    ensures name in LabelPass(lines).labels <==> exists i :: 0 <= i < |lines| && Defines(lines[i], name)
  {
    if lines != [] {
      var n := |lines| - 1;
      var prefix := lines[..n];
      LabelDefined(prefix, name);
      LabelStepKeys(LabelPass(prefix), lines[n], name);
      if name in LabelPass(lines).labels {
        if Defines(lines[n], name) {
          assert 0 <= n < |lines| && Defines(lines[n], name);
        } else {
          var i :| 0 <= i < n && Defines(prefix[i], name);
          assert lines[i] == prefix[i];
        }
      } else {
        assert !Defines(lines[n], name);
        forall i | 0 <= i < |lines|
          ensures !Defines(lines[i], name)
        {
          if i < n { assert lines[i] == prefix[i]; } else { assert lines[i] == lines[n]; }
        }
      }
    }
  }

  /**
   * A label is bound to the counter pass 1 had reached at the last line defining it,
   * `0x00400000` plus a word for every earlier line given a slot: a later definition
   * overwrites an earlier one.
   */
  lemma {:induction false} LabelAddress(lines: seq<string>, name: string, i: nat)
    requires i < |lines| && Defines(lines[i], name)
    requires forall j :: i < j < |lines| ==> !Defines(lines[j], name)
    ensures name in LabelPass(lines).labels
    ensures LabelPass(lines).labels[name] == TextBase + 4 * Slots(lines[..i])
  {
    var n := |lines| - 1;
    var prefix := lines[..n];
    if i < n {
      assert prefix[..i] == lines[..i];
      assert forall j :: i < j < |prefix| ==> prefix[j] == lines[j];
      LabelAddress(prefix, name, i);
    }
  }

  // ---- Pass 2: the machine words ----

  /** One output record: an instruction address and its machine word. */
  datatype Record = Record(addr: nat, word: nat)

  /** Pass 2's counter and records so far, or the end of a run that raised an uncaught exception. */
  datatype EncodeState = Running(addr: nat, records: seq<Record>) | Aborted

  /** A line pass 2 skips before encoding: blank, a comment, or ending with ':' once stripped. */
  predicate Skipped(line: string) {
    var t := Strip(line);
    t == [] || EndsWith(t, ':') || StartsWith(t, '#')
  }

  /** The text pass 2 hands to the line encoder. */
  function Instruction(line: string): string {
    Remainder(Strip(line))
  }

  /** What pass 2 does with the outcome of encoding a line at counter `addr`. */
  function Absorb(addr: nat, records: seq<Record>, outcome: LineResult): EncodeState {
    match outcome
    case Code(bits) =>
      // `int(bits, 2)` raises ValueError on the '-' a negative register leaves in the bits
      if IsNumeral(bits, 2) then Running(addr + 4, records + [Record(addr, Value(bits, 2))]) else Aborted
    case NoCode => Running(addr, records)
    case UndefinedLabel(_) => Running(addr, records)
    case Crash => Aborted
  }

  /** One line of pass 2. */
  function EncodeStep(st: EncodeState, labels: map<string, nat>, line: string): EncodeState {
    match st
    case Aborted => Aborted
    case Running(addr, records) =>
      if Skipped(line) then st else Absorb(addr, records, AssembleLine(Instruction(line), labels, addr))
  }

  /** A record list whose `k`-th record sits at the `k`-th word from the base. */
  predicate Consecutive(records: seq<Record>) {
    forall k :: 0 <= k < |records| ==> records[k].addr == TextBase + 4 * k
  }

  /** Pass 2 over `lines`, with the label table `labels`. */
  function EncodePass(lines: seq<string>, labels: map<string, nat>): EncodeState {
    if lines == [] then Running(TextBase, [])
    else EncodeStep(EncodePass(lines[..|lines| - 1], labels), labels, lines[|lines| - 1])
  }

  /**
   * Unless the run aborted, pass 2's records sit on consecutive words from `0x00400000`
   * (strictly increasing by 4), and its counter is the word after the last record.
   */
  lemma {:induction false} RecordAddresses(lines: seq<string>, labels: map<string, nat>)
    requires EncodePass(lines, labels).Running?
    ensures Consecutive(EncodePass(lines, labels).records)
    ensures EncodePass(lines, labels).addr == TextBase + 4 * |EncodePass(lines, labels).records|
  {
    if lines != [] {
      var prefix := lines[..|lines| - 1];
      var st := EncodePass(prefix, labels);
      assert st.Running?;
      RecordAddresses(prefix, labels);
    }
  }

  /** Pass 2 keeps going on this line and advances past it, at any counter (lemma EncodeStepCounts). */
  predicate Emits(line: string, labels: map<string, nat>) {
    !Skipped(line) && AssembleLine(Instruction(line), labels, TextBase).Code?
  }

  /** The number of lines pass 2 emits a record for. */
  function Emitted(lines: seq<string>, labels: map<string, nat>): nat {
    if lines == [] then 0
    else Emitted(lines[..|lines| - 1], labels) + if Emits(lines[|lines| - 1], labels) then 1 else 0
  }

  /** A running step of pass 2 adds a record exactly for a line that emits, whatever the counter. */
  lemma EncodeStepCounts(st: EncodeState, labels: map<string, nat>, line: string)
    requires st.Running? && EncodeStep(st, labels, line).Running?
    ensures |EncodeStep(st, labels, line).records| == |st.records| + if Emits(line, labels) then 1 else 0
  {
    OutcomeIgnoresAddresses(Instruction(line), labels, labels, TextBase, st.addr);
  }

  /** Once an exception has ended the run, no later line restarts it. */
  lemma {:induction false} AbortIsFinal(lines: seq<string>, labels: map<string, nat>, k: nat)
    requires k <= |lines| && EncodePass(lines[..k], labels).Aborted?
    ensures EncodePass(lines, labels).Aborted?
  {
    if k == |lines| {
      assert lines[..k] == lines;
    } else {
      var prefix := lines[..|lines| - 1];
      assert prefix[..k] == lines[..k];
      AbortIsFinal(prefix, labels, k);
    }
  }

  /** A run that did not abort was running after every prefix of its lines. */
  lemma RunningPrefix(lines: seq<string>, labels: map<string, nat>, k: nat)
    requires k <= |lines| && EncodePass(lines, labels).Running?
    ensures EncodePass(lines[..k], labels).Running?
  {
    if EncodePass(lines[..k], labels).Aborted? {
      AbortIsFinal(lines, labels, k);
    }
  }

  /** A run that did not abort has one record per emitting line. */
  lemma {:induction false} EmittedCount(lines: seq<string>, labels: map<string, nat>)
    requires EncodePass(lines, labels).Running?
    ensures |EncodePass(lines, labels).records| == Emitted(lines, labels)
  {
    if lines != [] {
      var n := |lines| - 1;
      var prefix := lines[..n];
      var st := EncodePass(prefix, labels);
      assert st.Running?;
      EmittedCount(prefix, labels);
      EncodeStepCounts(st, labels, lines[n]);
    }
  }

  /** A line pass 2 emits a record for is one pass 1 gave a slot. */
  lemma EmitsOccupies(line: string, labels: map<string, nat>)
    ensures Emits(line, labels) ==> Occupies(line)
  {
    TokensEmpty(Instruction(line));
  }

  /** Pass 1 counts a slot for every record pass 2 emits, and for every line it drops. */
  predicate NothingDropped(lines: seq<string>, labels: map<string, nat>) {
    forall i :: 0 <= i < |lines| ==> Occupies(lines[i]) ==> Emits(lines[i], labels)
  }

  /** A list with nothing dropped stays so when a line that is not dropped is added. */
  lemma NothingDroppedExtend(lines: seq<string>, labels: map<string, nat>)
    requires lines != [] && NothingDropped(lines[..|lines| - 1], labels)
    requires Occupies(lines[|lines| - 1]) ==> Emits(lines[|lines| - 1], labels)
    ensures NothingDropped(lines, labels)
  {
    var n := |lines| - 1;
    var prefix := lines[..n];
    forall i | 0 <= i < |lines| && Occupies(lines[i])
      ensures Emits(lines[i], labels)
    {
      if i < n { assert lines[i] == prefix[i]; } else { assert lines[i] == lines[n]; }
    }
  }

  lemma NothingDroppedPrefix(lines: seq<string>, labels: map<string, nat>, k: nat)
    requires k <= |lines| && NothingDropped(lines, labels)
    ensures NothingDropped(lines[..k], labels)
  {
    var prefix := lines[..k];
    forall i | 0 <= i < |prefix| && Occupies(prefix[i])
      ensures Emits(prefix[i], labels)
    {
      assert prefix[i] == lines[i];
    }
  }

  /** Pass 2 never gets ahead of pass 1, and keeps up with it exactly when it drops no line pass 1 counted. */
  lemma {:induction false} EmittedSlots(lines: seq<string>, labels: map<string, nat>)
    ensures Emitted(lines, labels) <= Slots(lines)
    ensures Emitted(lines, labels) == Slots(lines) <==> NothingDropped(lines, labels)
  {
    if lines != [] {
      var n := |lines| - 1;
      EmittedSlots(lines[..n], labels);
      EmitsOccupies(lines[n], labels);
      if NothingDropped(lines, labels) {
        NothingDroppedPrefix(lines, labels, n);
        assert Occupies(lines[n]) ==> Emits(lines[n], labels);
      } else if NothingDropped(lines[..n], labels) && (Occupies(lines[n]) ==> Emits(lines[n], labels)) {
        NothingDroppedExtend(lines, labels);
      }
    }
  }

  /**
   * The addresses of the two passes: pass 2's counter never runs ahead of pass 1's, and the
   * two end equal exactly when every line pass 1 gave a slot had its record emitted: a
   * comment after a label, an unknown mnemonic or an undefined label shifts every later
   * address pass 2 emits below the one pass 1 bound its labels to.
   */
  lemma PassesAgree(lines: seq<string>, labels: map<string, nat>)
    requires EncodePass(lines, labels).Running?
    ensures EncodePass(lines, labels).addr <= LabelPass(lines).addr
    ensures EncodePass(lines, labels).addr == LabelPass(lines).addr <==> NothingDropped(lines, labels)
  {
    RecordAddresses(lines, labels);
    EmittedCount(lines, labels);
    EmittedSlots(lines, labels);
  }

  /**
   * When no line is dropped, a label stands for the address pass 2 gives the next record
   * after the label's last definition: the one a branch or jump to it means.
   */
  lemma LabelMarksNextRecord(lines: seq<string>, name: string, i: nat)
    requires i < |lines| && Defines(lines[i], name)
    requires forall j :: i < j < |lines| ==> !Defines(lines[j], name)
    requires NothingDropped(lines, LabelPass(lines).labels)
    requires EncodePass(lines, LabelPass(lines).labels).Running?
    ensures name in LabelPass(lines).labels
    ensures EncodePass(lines[..i], LabelPass(lines).labels).Running?
    ensures LabelPass(lines).labels[name] == EncodePass(lines[..i], LabelPass(lines).labels).addr
  {
    var labels := LabelPass(lines).labels;
    var prefix := lines[..i];
    LabelAddress(lines, name, i);
    RunningPrefix(lines, labels, i);
    NothingDroppedPrefix(lines, labels, i);
    PassesAgree(prefix, labels);
  }

  // ---- Output ----

  /** `f"{addr:08x} {word:08x}"`. */
  function FormatRecord(r: Record): string {
    FormatNat(r.addr, 16, 8) + " " + FormatNat(r.word, 16, 8)
  }

  /** The output lines of a run, or `None` when it aborted and wrote nothing. */
  function Render(st: EncodeState): Option<seq<string>> {
    match st
    case Aborted => None
    case Running(_, records) => Some(seq(|records|, k requires 0 <= k < |records| => FormatRecord(records[k])))
  }

  /** `main` without the file I/O: pass 1, then pass 2 with pass 1's label table. */
  function Assemble(lines: seq<string>): Option<seq<string>> {
    Render(EncodePass(lines, LabelPass(lines).labels))
  }

  /**
   * A record whose address and word fit in 32 bits prints as two 8-digit lower-case hex
   * fields separated by one space, from which the address and the word read back.
   */
  lemma FormatRecordFields(r: Record)
    requires r.addr < 0x1_0000_0000 && r.word < 0x1_0000_0000
    ensures var s := FormatRecord(r);
      && |s| == 17 && s[8] == ' '
      && IsNumeral(s[..8], 16) && Value(s[..8], 16) == r.addr
      && IsNumeral(s[9..], 16) && Value(s[9..], 16) == r.word
  {
    assert Pow(16, 8) == 0x1_0000_0000;
    FormatNatValue(r.addr, 16, 8);
    FormatNatValue(r.word, 16, 8);
    var a, w := FormatNat(r.addr, 16, 8), FormatNat(r.word, 16, 8);
    var s := a + " " + w;
    assert s[..8] == a && s[9..] == w;
  }

  /** The `k`-th output line of a run names the `k`-th word from `0x00400000` as its address. */
  lemma OutputAddresses(lines: seq<string>, k: nat)
    requires Assemble(lines).Some? && k < |Assemble(lines).value|
    requires TextBase + 4 * k < 0x1_0000_0000
    ensures IsNumeral(Assemble(lines).value[k][..8], 16)
    ensures Value(Assemble(lines).value[k][..8], 16) == TextBase + 4 * k
  {
    var st := EncodePass(lines, LabelPass(lines).labels);
    RecordAddresses(lines, LabelPass(lines).labels);
    var r := st.records[k];
    assert Assemble(lines).value[k] == FormatRecord(r);
    var a := FormatNat(r.addr, 16, 8);
    assert Pow(16, 8) == 0x1_0000_0000;
    FormatNatValue(r.addr, 16, 8);
    assert FormatRecord(r)[..8] == a;
  }

  // ---- The passes as `main` runs them ----

  /** Pass 1: one loop over the lines that updates the label table and the counter in place. */
  method CollectLabels(lines: seq<string>) returns (labels: map<string, nat>, addr: nat)
    ensures LabelState(labels, addr) == LabelPass(lines)
  {
    labels, addr := map[], TextBase;
    for i := 0 to |lines|
      invariant LabelState(labels, addr) == LabelPass(lines[..i])
    {
      assert lines[..i + 1][..i] == lines[..i];
      var line := Strip(lines[i]);
      if line == [] || StartsWith(line, '#') {
        continue;
      }
      if ':' in line {
        labels := labels[LabelName(line) := addr];
        line := Strip(SplitOn(line, ':')[1]);
      }
      if line != [] {
        addr := addr + 4;
      }
    }
    assert lines[..|lines|] == lines;
  }

  /**
   * Pass 2: one loop over the lines that appends an output line and advances the counter
   * for each line that gives code, skips lines whose label is undefined, and stops with no
   * output on an uncaught exception.
   */
  method EncodeLines(lines: seq<string>, labels: map<string, nat>) returns (output: Option<seq<string>>)
    ensures output == Render(EncodePass(lines, labels))
  {
    var addr: nat := TextBase;
    var outputLines: seq<string> := [];
    ghost var records: seq<Record> := [];
    for i := 0 to |lines|
      invariant EncodePass(lines[..i], labels) == Running(addr, records)
      invariant Lists(outputLines, records)
    {
      if Skipped(lines[i]) {
        EncodePassSkips(lines, labels, i);
        continue;
      }
      var machineCode := AssembleLine(Instruction(lines[i]), labels, addr);
      EncodePassAbsorbs(lines, labels, i, machineCode);
      var aborted;
      aborted, addr, outputLines, records := EmitRecord(addr, outputLines, records, machineCode);
      if aborted {
        AbortIsFinal(lines, labels, i + 1);
        return None;
      }
    }
    assert lines[..|lines|] == lines;
    assert outputLines == seq(|records|, k requires 0 <= k < |records| => FormatRecord(records[k]));
    output := Some(outputLines);
  }

  /** `outputLines` holds the formatted records, in order. */
  predicate Lists(outputLines: seq<string>, records: seq<Record>) {
    |outputLines| == |records| && forall k :: 0 <= k < |records| ==> outputLines[k] == FormatRecord(records[k])
  }

  /**
   * What pass 2's loop body does with the outcome of encoding a line: append its output
   * line and advance when it is code, stop on an uncaught exception, and otherwise go on.
   */
  method EmitRecord(addr: nat, outputLines: seq<string>, ghost records: seq<Record>, machineCode: LineResult)
    returns (aborted: bool, addr': nat, outputLines': seq<string>, ghost records': seq<Record>)
    requires Lists(outputLines, records)
    ensures aborted <==> Absorb(addr, records, machineCode).Aborted?
    ensures !aborted ==> Absorb(addr, records, machineCode) == Running(addr', records') && Lists(outputLines', records')
  {
    aborted, addr', outputLines', records' := false, addr, outputLines, records;
    match machineCode {
      case Code(bits) =>
        if !IsNumeral(bits, 2) {
          aborted := true;
        } else {
          var record := Record(addr, Value(bits, 2));
          outputLines' := outputLines + [FormatRecord(record)];
          records' := records + [record];
          addr' := addr + 4;
        }
      case Crash =>
        aborted := true;
      case NoCode =>
      case UndefinedLabel(_) =>
    }
  }

  /** Pass 2 passes over a line it skips. */
  lemma EncodePassSkips(lines: seq<string>, labels: map<string, nat>, i: nat)
    requires i < |lines| && Skipped(lines[i]) && EncodePass(lines[..i], labels).Running?
    ensures EncodePass(lines[..i + 1], labels) == EncodePass(lines[..i], labels)
  {
    EncodePassSnoc(lines, labels, i);
  }

  /** Pass 2 on a line it does not skip goes by the outcome of encoding it. */
  lemma EncodePassAbsorbs(lines: seq<string>, labels: map<string, nat>, i: nat, outcome: LineResult)
    requires i < |lines| && !Skipped(lines[i]) && EncodePass(lines[..i], labels).Running?
    requires outcome == AssembleLine(Instruction(lines[i]), labels, EncodePass(lines[..i], labels).addr)
    ensures EncodePass(lines[..i + 1], labels)
      == Absorb(EncodePass(lines[..i], labels).addr, EncodePass(lines[..i], labels).records, outcome)
  {
    EncodePassSnoc(lines, labels, i);
  }

  /** Pass 2 over one more line is one more step. */
  lemma EncodePassSnoc(lines: seq<string>, labels: map<string, nat>, i: nat)
    requires i < |lines|
    ensures EncodePass(lines[..i + 1], labels) == EncodeStep(EncodePass(lines[..i], labels), labels, lines[i])
  {
    assert lines[..i + 1][..i] == lines[..i];
  }

  /** `main` without the file I/O: pass 1, then pass 2 with its label table. */
  method AssembleSource(lines: seq<string>) returns (output: Option<seq<string>>)
    ensures output == Assemble(lines)
  {
    var labels, end := CollectLabels(lines);
    output := EncodeLines(lines, labels);
  }
}
