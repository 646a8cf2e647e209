/**
 * The assembler's first pass, asmparser.cpp.
 *
 * StrToOpcode looks a mnemonic up in a table that it fills on its first call
 * (the static QHash `opmap`); Parse reads a source file line by line, splits
 * every non-blank line with the tokenizer into label, mnemonic and rest,
 * records the label's address in a local table and appends `op << 15` to the
 * output vector for every known mnemonic. It returns the 1-based number of the
 * first line without a mnemonic, or 0.
 *
 * The class AsmParser holds the static table and the two methods; `Verdicts`
 * and `ParseFrom` are the specification of Parse's loop.
 */
module Assembler {
  import opened Wrappers
  import opened TrnOpcodes
  import opened Words
  import opened QtText
  import opened AsmTokenizer

  // ---------------------------------------------------------------------------
  // The opcode table
  // ---------------------------------------------------------------------------

  /**
   * The key asmparser.cpp enters for each enumerator: its own name, except
   * that OUT is entered under "OUTP".
   */
  function MnemonicOf(e: Enumerator): string {
    match e
    case NOP => "NOP"
    case LDA => "LDA"
    case LDX => "LDX"
    case LDI => "LDI"
    case STA => "STA"
    case STX => "STX"
    case STI => "STI"
    case ENA => "ENA"
    case PSH => "PSH"
    case POP => "POP"
    case INA => "INA"
    case INX => "INX"
    case INI => "INI"
    case DCA => "DCA"
    case DCX => "DCX"
    case DCI => "DCI"
    case ENI => "ENI"
    case LSP => "LSP"
    case ADA => "ADA"
    case SUB => "SUB"
    case AND => "AND"
    case ORA => "ORA"
    case XOR => "XOR"
    case CMA => "CMA"
    case JMP => "JMP"
    case JPN => "JPN"
    case JAG => "JAG"
    case JPZ => "JPZ"
    case JPO => "JPO"
    case JSR => "JSR"
    case JIG => "JIG"
    case SHAL => "SHAL"
    case SHAR => "SHAR"
    case SHXL => "SHXL"
    case SHXR => "SHXR"
    case SSP => "SSP"
    case SAXL => "SAXL"
    case SAXR => "SAXR"
    case INP => "INP"
    case OUT => "OUTP"
    case RET => "RET"
    case HLT => "HLT"
  }
  /**
   * An independent reading of the same table, letter by letter: the
   * enumerator whose key `s` is, None for any other string.
   */
  function Recognize(s: string): Option<Enumerator> {
    if |s| == 3 then
      (match s[0]
        case 'A' => (match s[1]
          case 'D' => if s[2] == 'A' then Some(ADA) else None
          case 'N' => if s[2] == 'D' then Some(AND) else None
          case _ => None)
        case 'C' => if s[1] == 'M' then if s[2] == 'A' then Some(CMA) else None else None
        case 'D' => if s[1] == 'C' then (match s[2]
          case 'A' => Some(DCA)
          case 'I' => Some(DCI)
          case 'X' => Some(DCX)
          case _ => None) else None
        case 'E' => if s[1] == 'N' then (match s[2]
          case 'A' => Some(ENA)
          case 'I' => Some(ENI)
          case _ => None) else None
        case 'H' => if s[1] == 'L' then if s[2] == 'T' then Some(HLT) else None else None
        case 'I' => if s[1] == 'N' then (match s[2]
          case 'A' => Some(INA)
          case 'I' => Some(INI)
          case 'P' => Some(INP)
          case 'X' => Some(INX)
          case _ => None) else None
        case 'J' => (match s[1]
          case 'A' => if s[2] == 'G' then Some(JAG) else None
          case 'I' => if s[2] == 'G' then Some(JIG) else None
          case 'M' => if s[2] == 'P' then Some(JMP) else None
          case 'P' => (match s[2]
            case 'N' => Some(JPN)
            case 'O' => Some(JPO)
            case 'Z' => Some(JPZ)
            case _ => None)
          case 'S' => if s[2] == 'R' then Some(JSR) else None
          case _ => None)
        case 'L' => (match s[1]
          case 'D' => (match s[2]
            case 'A' => Some(LDA)
            case 'I' => Some(LDI)
            case 'X' => Some(LDX)
            case _ => None)
          case 'S' => if s[2] == 'P' then Some(LSP) else None
          case _ => None)
        case 'N' => if s[1] == 'O' then if s[2] == 'P' then Some(NOP) else None else None
        case 'O' => if s[1] == 'R' then if s[2] == 'A' then Some(ORA) else None else None
        case 'P' => (match s[1]
          case 'O' => if s[2] == 'P' then Some(POP) else None
          case 'S' => if s[2] == 'H' then Some(PSH) else None
          case _ => None)
        case 'R' => if s[1] == 'E' then if s[2] == 'T' then Some(RET) else None else None
        case 'S' => (match s[1]
          case 'S' => if s[2] == 'P' then Some(SSP) else None
          case 'T' => (match s[2]
            case 'A' => Some(STA)
            case 'I' => Some(STI)
            case 'X' => Some(STX)
            case _ => None)
          case 'U' => if s[2] == 'B' then Some(SUB) else None
          case _ => None)
        case 'X' => if s[1] == 'O' then if s[2] == 'R' then Some(XOR) else None else None
        case _ => None)
    else if |s| == 4 then
      (match s[0]
        case 'O' => if s[1] == 'U' then if s[2] == 'T' then if s[3] == 'P' then Some(OUT) else None else None else None
        case 'S' => (match s[1]
          case 'A' => if s[2] == 'X' then (match s[3]
            case 'L' => Some(SAXL)
            case 'R' => Some(SAXR)
            case _ => None) else None
          case 'H' => (match s[2]
            case 'A' => (match s[3]
              case 'L' => Some(SHAL)
              case 'R' => Some(SHAR)
              case _ => None)
            case 'X' => (match s[3]
              case 'L' => Some(SHXL)
              case 'R' => Some(SHXR)
              case _ => None)
            case _ => None)
          case _ => None)
        case _ => None)
    else None
  }
  /** Every key is read back as its own enumerator. */
  lemma RecognizeMnemonic(e: Enumerator)
    ensures Recognize(MnemonicOf(e)) == Some(e)
  {
    match e
    case NOP | LDA | LDX | LDI | STA | STX | STI | ENA => RecognizeGroup1(e);
    case PSH | POP | INA | INX | INI | DCA | DCX | DCI => RecognizeGroup2(e);
    case ENI | LSP | ADA | SUB | AND | ORA | XOR | CMA => RecognizeGroup3(e);
    case JMP | JPN | JAG | JPZ | JPO | JSR | JIG => RecognizeGroup4(e);
    case SHAL | SHAR | SHXL | SHXR => RecognizeGroup5(e);
    case SSP | SAXL | SAXR | INP => RecognizeGroup6(e);
    case OUT | RET | HLT => RecognizeGroup7(e);
  }

  /** The same, for the enumerators of one group of the declaration. */
  lemma RecognizeGroup1(e: Enumerator)
    requires e == NOP || e == LDA || e == LDX || e == LDI || e == STA || e == STX || e == STI || e == ENA
    ensures Recognize(MnemonicOf(e)) == Some(e)
  {
  }

  lemma RecognizeGroup2(e: Enumerator)
    requires e == PSH || e == POP || e == INA || e == INX || e == INI || e == DCA || e == DCX || e == DCI
    ensures Recognize(MnemonicOf(e)) == Some(e)
  {
  }

  lemma RecognizeGroup3(e: Enumerator)
    requires e == ENI || e == LSP || e == ADA || e == SUB || e == AND || e == ORA || e == XOR || e == CMA
    ensures Recognize(MnemonicOf(e)) == Some(e)
  {
  }

  lemma RecognizeGroup4(e: Enumerator)
    requires e == JMP || e == JPN || e == JAG || e == JPZ || e == JPO || e == JSR || e == JIG
    ensures Recognize(MnemonicOf(e)) == Some(e)
  {
  }

  lemma RecognizeGroup5(e: Enumerator)
    requires e == SHAL || e == SHAR || e == SHXL || e == SHXR
    ensures Recognize(MnemonicOf(e)) == Some(e)
  {
  }

  lemma RecognizeGroup6(e: Enumerator)
    requires e == SSP || e == SAXL || e == SAXR || e == INP
    ensures Recognize(MnemonicOf(e)) == Some(e)
  {
  }

  lemma RecognizeGroup7(e: Enumerator)
    requires e == OUT || e == RET || e == HLT
    ensures Recognize(MnemonicOf(e)) == Some(e)
  {
  }

  /** No two enumerators share a key. */
  lemma MnemonicInjective(a: Enumerator, b: Enumerator)
    requires MnemonicOf(a) == MnemonicOf(b)
    ensures a == b
  {
    RecognizeMnemonic(a);
    RecognizeMnemonic(b);
  }

  /** Recognize accepts only keys. */
  lemma RecognizeSound(s: string, e: Enumerator)
    requires Recognize(s) == Some(e)
    ensures s == MnemonicOf(e)
  {
    if |s| == 3 {
      RecognizeSound3(s, e);
    } else {
      RecognizeSound4(s, e);
    }
  }

  lemma RecognizeSound3(s: string, e: Enumerator)
    requires |s| == 3 && Recognize(s) == Some(e)
    ensures s == MnemonicOf(e)
  {
    assert s == [s[0], s[1], s[2]];
    if s[0] < 'I' {
      RecognizeSoundAH(s, e);
    } else if s[0] < 'N' {
      RecognizeSoundIL(s, e);
    } else {
      RecognizeSoundNX(s, e);
    }
  }

  lemma RecognizeSoundAH(s: string, e: Enumerator)
    requires |s| == 3 && s[0] < 'I' && Recognize(s) == Some(e)
    ensures [s[0], s[1], s[2]] == MnemonicOf(e)
  {
  }

  lemma RecognizeSoundIL(s: string, e: Enumerator)
    requires |s| == 3 && 'I' <= s[0] < 'N' && Recognize(s) == Some(e)
    ensures [s[0], s[1], s[2]] == MnemonicOf(e)
  {
  }

  lemma RecognizeSoundNX(s: string, e: Enumerator)
    requires |s| == 3 && 'N' <= s[0] && Recognize(s) == Some(e)
    ensures [s[0], s[1], s[2]] == MnemonicOf(e)
  {
  }

  lemma RecognizeSound4(s: string, e: Enumerator)
    requires |s| == 4 && Recognize(s) == Some(e)
    ensures s == MnemonicOf(e)
  {
    assert s == [s[0], s[1], s[2], s[3]];
  }

  /**
   * The enumerators StrToOpcode enters, in the order of its assignments; SHAL
   * is entered twice.
   */
  const Inserts: seq<Enumerator> :=
    [NOP, LDA, LDX, LDI, STA, STX, STI, ENA, PSH, POP,
     INA, INX, INI, DCA, DCX, DCI, ENI, LSP, ADA, SUB,
     AND, ORA, XOR, CMA, JMP, JPN, JAG, JPZ, JPO, JSR,
     JIG, SHAL, SHAR, SHAL, SHXL, SHXR, SSP, SAXL, SAXR, INP,
     OUT, RET, HLT]

  /** The table the assignments opmap[key] = e for the enumerators of `ins` build, one after another. */
  function Filled(ins: seq<Enumerator>): map<string, Enumerator> {
    if ins == [] then map[]
    else Filled(ins[..|ins| - 1])[MnemonicOf(ins[|ins| - 1]) := ins[|ins| - 1]]
  }

  /** The table that maps the key of every enumerator of `ins` to it. */
  function TableOf(ins: seq<Enumerator>): map<string, Enumerator> {
    map e | e in ins :: MnemonicOf(e) := e
  }

  /** The filled table: the key of every enumerator, mapped to it. */
  function OpTable(): map<string, Enumerator> {
    map e: Enumerator | true :: MnemonicOf(e) := e
  }

  /** An enumerator's key is some other enumerator's key only when the two are the same. */
  lemma KeysDistinct()
    ensures forall a, b :: MnemonicOf(a) == MnemonicOf(b) ==> a == b
  {
    forall a, b | MnemonicOf(a) == MnemonicOf(b) ensures a == b {
      MnemonicInjective(a, b);
    }
  }

  /** Entering one more enumerator adds its key to the table and keeps every other entry. */
  lemma TableSnoc(init: seq<Enumerator>, last: Enumerator)
    ensures TableOf(init + [last]) == TableOf(init)[MnemonicOf(last) := last]
  {
    KeysDistinct();
    var l := TableOf(init + [last]);
    var r := TableOf(init)[MnemonicOf(last) := last];
    assert forall k :: k in l <==> k in r;
  }

  /** Since keys are distinct, assigning them in order builds exactly the table of all of them. */
  lemma {:induction false} FilledIsTable(ins: seq<Enumerator>)
    ensures Filled(ins) == TableOf(ins)
  {
    if ins != [] {
      var init := ins[..|ins| - 1];
      var last := ins[|ins| - 1];
      FilledIsTable(init);
      assert Filled(ins) == Filled(init)[MnemonicOf(last) := last];
      assert ins == init + [last];
      TableSnoc(init, last);
    }
  }

  /** Every enumerator is entered. */
  lemma InInserts(e: Enumerator)
    ensures e in Inserts
  {
  }

  /** The assignments of StrToOpcode build the table of all enumerators. */
  lemma InsertsFillTable()
    ensures Filled(Inserts) == OpTable()
  {
    FilledIsTable(Inserts);
    forall e ensures e in Inserts {
      InInserts(e);
    }
    CompleteTable(Inserts);
  }

  /** A sequence that enters every enumerator builds the whole table. */
  lemma CompleteTable(ins: seq<Enumerator>)
    requires forall e :: e in ins
    ensures TableOf(ins) == OpTable()
  {
    var t := TableOf(ins);
    var o := OpTable();
    forall k | k in o ensures k in t && t[k] == o[k] {
      var e :| MnemonicOf(e) == k;
      assert e in ins;
      MnemonicInjective(t[k], e);
      MnemonicInjective(o[k], e);
    }
    assert forall k :: k in t ==> k in o;
  }

  /** Dropping a repeated element of a sequence leaves the same elements. */
  lemma DropRepeat<T>(s: seq<T>, i: nat, j: nat)
    requires i < j < |s| && s[i] == s[j]
    ensures forall x :: x in s <==> x in s[..j] + s[j + 1..]
  {
    forall x | x in s ensures x in s[..j] + s[j + 1..] {
      var k :| 0 <= k < |s| && s[k] == x;
      if k < j {
        assert (s[..j] + s[j + 1..])[k] == x;
      } else if k == j {
        assert (s[..j] + s[j + 1..])[i] == x;
      } else {
        assert (s[..j] + s[j + 1..])[k - 1] == x;
      }
    }
    assert forall x :: x in s[..j] + s[j + 1..] ==> x in s[..j] || x in s[j + 1..];
  }

  /** The table depends only on which enumerators are entered. */
  lemma TableOfElements(a: seq<Enumerator>, b: seq<Enumerator>)
    requires forall x :: x in a <==> x in b
    ensures TableOf(a) == TableOf(b)
  {
  }

  /** The second SHAL assignment changes nothing: the table is the same without it. */
  lemma DuplicateShalHarmless()
    ensures Filled(Inserts) == Filled(Inserts[..33] + Inserts[34..])
  {
    FilledIsTable(Inserts);
    FilledIsTable(Inserts[..33] + Inserts[34..]);
    DropRepeat(Inserts, 31, 33);
    TableOfElements(Inserts, Inserts[..33] + Inserts[34..]);
  }

  /** What StrToOpcode returns (qint8): an opcode value, or -1. */
  type OpResult = x: int | -1 <= x < 32

  /** `opmap.contains(cmd) ? opmap[cmd] : -1` for a table `opmap`. */
  function Lookup(table: map<string, Enumerator>, cmd: string): OpResult {
    if cmd in table then Value(table[cmd]) else -1
  }

  /** What StrToOpcode returns once the table is filled. */
  function Opcode(cmd: string): OpResult {
    Lookup(OpTable(), cmd)
  }

  /** Each key gives its enumerator's value. */
  lemma OpcodeMnemonic(e: Enumerator)
    ensures Opcode(MnemonicOf(e)) == Value(e)
  {
    KeysDistinct();
  }

  /** The lookup agrees with the letter-by-letter reading on every string: -1 for anything that is not a key. */
  lemma OpcodeRecognize(cmd: string)
    ensures Opcode(cmd) == match Recognize(cmd) case Some(e) => Value(e) case None => -1
  {
    match Recognize(cmd)
    case Some(e) =>
      RecognizeSound(cmd, e);
      OpcodeMnemonic(e);
    case None =>
      if cmd in OpTable() {
        var e :| MnemonicOf(e) == cmd;
        RecognizeMnemonic(e);
      }
  }

  /** OUT is entered under "OUTP": that string gives OUT's value and "OUT" itself is not a key. */
  lemma OpcodeOutp()
    ensures Opcode("OUTP") == 29 && Opcode("OUT") == -1
  {
    OpcodeRecognize("OUTP");
    OpcodeRecognize("OUT");
  }

  /** The lookup is exact: a lower-case mnemonic is not a key. */
  lemma OpcodeCaseSensitive()
    ensures Opcode("NOP") == 0 && Opcode("nop") == -1
  {
    OpcodeRecognize("NOP");
    OpcodeRecognize("nop");
  }

  /** Pseudo-instructions are not keys. */
  lemma OpcodePseudo()
    ensures Opcode("NAM") == -1 && Opcode("END") == -1 && Opcode("ORG") == -1
  {
    OpcodeRecognize("NAM");
    OpcodeRecognize("END");
    OpcodeRecognize("ORG");
  }

  /** An alias looks up to its initializer's value. */
  lemma OpcodeAlias(e: Enumerator)
    requires Initializer(e).Some?
    ensures Opcode(MnemonicOf(e)) == Opcode(MnemonicOf(Initializer(e).value))
  {
    OpcodeMnemonic(e);
    OpcodeMnemonic(Initializer(e).value);
    AliasValue(e);
  }

  /** OpcodeHasArgs: a stub, no opcode is treated as taking an argument. */
  function OpcodeHasArgs(op: int): (b: bool)
    ensures !b
  {
    false
  }

  // ---------------------------------------------------------------------------
  // Words and tokens
  // ---------------------------------------------------------------------------

  /**
   * `(quint32)op << 15`: the opcode in bits 15-19, bits 0-14 zero. An opcode
   * is below 32, so no bit leaves the 32-bit word and the shift is a
   * multiplication by 2^15.
   */
  function OpWord(op: int): (w: u32)
    requires 0 <= op < 32
    ensures w % 0x8000 == 0 && w / 0x8000 == op && w < 0x10_0000
  {
    op * 0x8000
  }

  /** QString::toUpper on ASCII letters. */
  function UpperChar(c: char): char {
    if 'a' <= c <= 'z' then (c as int - 32) as char else c
  }

  function ToUpper(s: string): (r: string)
    ensures |r| == |s| && forall k :: 0 <= k < |s| ==> r[k] == UpperChar(s[k])
  {
    seq(|s|, k requires 0 <= k < |s| => UpperChar(s[k]))
  }

  /** Upper-casing leaves a string of uppercase letters as it is. */
  lemma ToUpperKeeps(s: string)
    requires forall k :: 0 <= k < |s| ==> IsUpper(s[k])
    ensures ToUpper(s) == s
  {
  }

  /** QString::chop(1): drop the last character, if any. */
  function Chop(s: string): (r: string)
    ensures s != [] ==> r + [s[|s| - 1]] == s
    ensures s == [] ==> r == []
  {
    if s == [] then s else s[..|s| - 1]
  }

  // ---------------------------------------------------------------------------
  // One line
  // ---------------------------------------------------------------------------

  /**
   * What one line asks of Parse's loop: nothing (a blank line), to stop with
   * an error (no mnemonic), or to record a label (without its colon) and to
   * look up the upper-cased mnemonic, with StrToOpcode's result.
   */
  datatype Verdict = Blank | NoInsn | Insn(name: Option<string>, op: OpResult)

  function Classify(line: string, table: map<string, Enumerator>): Verdict {
    if Trimmed(line) == [] then Blank
    else
      var c := Captured(line);
      var labelText := Trimmed(c.labelText);
      var insn := Trimmed(c.insnText);
      if insn == [] then NoInsn
      else InsnVerdict(labelText, insn, table)
  }

  /** The verdict on a line whose trimmed label capture is labelText and whose trimmed, non-empty mnemonic is insn. */
  function InsnVerdict(labelText: string, insn: string, table: map<string, Enumerator>): Verdict {
    Insn(if labelText == [] then None else Some(Chop(labelText)), Lookup(table, ToUpper(insn)))
  }

  /** The verdict on a non-blank line, in terms of its trimmed captures. */
  lemma ClassifyCaptures(line: string, table: map<string, Enumerator>, labelText: string, insn: string)
    requires Trimmed(line) != []
    requires labelText == Trimmed(Captured(line).labelText) && insn == Trimmed(Captured(line).insnText)
    ensures Classify(line, table) == if insn == [] then NoInsn else InsnVerdict(labelText, insn, table)
  {
  }

  /** A line is blank exactly when it is all space. */
  lemma ClassifyBlank(line: string, table: map<string, Enumerator>)
    ensures Classify(line, table) == Blank <==> AllSpace(line)
  {
    BlankIffAllSpace(line);
  }

  /** Trimming leaves a run of uppercase letters (or a label with its colon) as it is. */
  lemma TrimmedToken(t: string)
    requires forall k :: 0 <= k < |t| - 1 ==> IsUpper(t[k])
    requires t != [] ==> IsUpper(t[|t| - 1]) || t[|t| - 1] == ':'
    ensures Trimmed(t) == t
  {
    if t == [] {
      BlankIffAllSpace(t);
    } else {
      assert IsUpper(t[0]) || t[0] == ':';
      TrimmedKeeps(t, []);
      assert t + [] == t;
    }
  }

  /** A non-blank line is an error exactly when it holds no uppercase letter. */
  lemma ClassifyNoInsn(line: string, table: map<string, Enumerator>)
    ensures Classify(line, table) == NoInsn <==>
      !AllSpace(line) && forall k :: 0 <= k < |line| ==> !IsUpper(line[k])
  {
    BlankIffAllSpace(line);
    CapturedInsn(line);
    TrimmedToken(Captured(line).insnText);
  }

  /**
   * Otherwise the line's opcode is the lookup of the mnemonic the tokenizer
   * captured, as it stands, and a label is the captured label without its colon.
   */
  lemma ClassifyInsn(line: string, table: map<string, Enumerator>)
    requires Classify(line, table).Insn?
    ensures Classify(line, table).op == Lookup(table, Captured(line).insnText)
    ensures Captured(line).labelText == [] ==> Classify(line, table).name == None
    ensures Captured(line).labelText != [] ==>
      Classify(line, table).name == Some(Captured(line).labelText[..|Captured(line).labelText| - 1])
  {
    var c := Captured(line);
    assert Trimmed(line) != [];
    if c.insnText == [] {
      BlankIffAllSpace(c.insnText);
    }
    ClassifyTokens(line, table);
    ToUpperKeeps(c.insnText);
  }

  /** On a non-blank line with a mnemonic, the verdict is that of the untrimmed captures. */
  lemma ClassifyTokens(line: string, table: map<string, Enumerator>)
    requires Trimmed(line) != [] && Captured(line).insnText != []
    ensures forall k :: 0 <= k < |Captured(line).insnText| ==> IsUpper(Captured(line).insnText[k])
    ensures Classify(line, table) == InsnVerdict(Captured(line).labelText, Captured(line).insnText, table)
  {
    var c := Captured(line);
    CapturesKept(line);
    ClassifyCaptures(line, table, c.labelText, c.insnText);
  }

  /** Trimming changes neither the mnemonic capture (uppercase letters) nor the label capture (uppercase letters and a colon). */
  lemma CapturesKept(line: string)
    ensures forall k :: 0 <= k < |Captured(line).insnText| ==> IsUpper(Captured(line).insnText[k])
    ensures Trimmed(Captured(line).insnText) == Captured(line).insnText
    ensures Trimmed(Captured(line).labelText) == Captured(line).labelText
  {
    CapturedInsn(line);
    CapturedLabel(line);
    UppersTrimmed(Captured(line).insnText);
    LabelTrimmed(Captured(line).labelText);
  }

  /** A run of uppercase letters is its own trimmed form. */
  lemma UppersTrimmed(t: string)
    requires forall k :: 0 <= k < |t| ==> IsUpper(t[k])
    ensures Trimmed(t) == t
  {
    TrimmedToken(t);
  }

  /** So is a label capture: uppercase letters and a colon. */
  lemma LabelTrimmed(l: string)
    requires l != [] ==> |l| >= 2 && l[|l| - 1] == ':' && forall k :: 0 <= k < |l| - 1 ==> IsUpper(l[k])
    ensures Trimmed(l) == l
  {
    TrimmedToken(l);
  }

  // ---------------------------------------------------------------------------
  // The line loop
  // ---------------------------------------------------------------------------

  /** Parse's return value, the output vector, and the local label table when the loop ends. */
  datatype Parsed = Parsed(ret: nat, words: seq<u32>, labels: map<string, nat>)

  /**
   * The verdict on every chunk readLine returns, made into a QString (cut at
   * its first NUL), looking mnemonics up in `table`.
   */
  function Verdicts(lines: seq<string>, table: map<string, Enumerator>): (r: seq<Verdict>)
    ensures |r| == |lines|
    ensures forall k :: 0 <= k < |lines| ==> r[k] == Classify(UpToNul(lines[k]), table)
  {
    seq(|lines|, k requires 0 <= k < |lines| => Classify(UpToNul(lines[k]), table))
  }

  /**
   * Parse's loop from line i on: skip blank lines, stop at the first line
   * without a mnemonic with its 1-based number, otherwise record the label at
   * the current length and append the word of a known opcode.
   */
  function ParseFrom(verdicts: seq<Verdict>, i: nat, words: seq<u32>, labels: map<string, nat>): Parsed
    requires i <= |verdicts|
    decreases |verdicts| - i
  {
    if i == |verdicts| then Parsed(0, words, labels)
    else
      match verdicts[i]
      case Blank => ParseFrom(verdicts, i + 1, words, labels)
      case NoInsn => Parsed(i + 1, words, labels)
      case Insn(name, op) =>
        ParseFrom(verdicts, i + 1,
                  if op > -1 then words + [OpWord(op)] else words,
                  if name.Some? then labels[name.value := |words|] else labels)
  }

  /** A NUL ends the QString early: a line that starts with one is blank, whatever follows. */
  lemma NulLineBlank(table: map<string, Enumerator>)
    ensures Verdicts(["\0NOP\n"], table) == [Blank]
  {
    assert UpToNul("\0NOP\n") == [];
    BlankIffAllSpace([]);
  }

  /** Parse on the lines of a file, appending to `words`, with an empty label table. */
  function ParseLines(lines: seq<string>, words: seq<u32>): Parsed {
    ParseFrom(Verdicts(lines, OpTable()), 0, words, map[])
  }

  /** The index of the first line without a mnemonic from i on, or |verdicts|. */
  function FirstNoInsn(verdicts: seq<Verdict>, i: nat): (n: nat)
    requires i <= |verdicts|
    ensures i <= n <= |verdicts|
    ensures n < |verdicts| ==> verdicts[n] == NoInsn
    ensures forall k :: i <= k < n ==> verdicts[k] != NoInsn
    decreases |verdicts| - i
  {
    if i == |verdicts| || verdicts[i] == NoInsn then i else FirstNoInsn(verdicts, i + 1)
  }

  /** The words the lines of `verdicts` append, in order: one per known opcode. */
  function Emitted(verdicts: seq<Verdict>): seq<u32> {
    if verdicts == [] then [] else WordsOf(verdicts[0]) + Emitted(verdicts[1..])
  }

  /** Parse returns 0 after the last line, or the 1-based number of the first line without a mnemonic. */
  lemma {:induction false} ParseFromReturns(verdicts: seq<Verdict>, i: nat, words: seq<u32>, labels: map<string, nat>)
    requires i <= |verdicts|
    ensures ParseFrom(verdicts, i, words, labels).ret ==
      if FirstNoInsn(verdicts, i) == |verdicts| then 0 else FirstNoInsn(verdicts, i) + 1
    decreases |verdicts| - i
  {
    if i < |verdicts| {
      match verdicts[i]
      case Blank => ParseFromReturns(verdicts, i + 1, words, labels);
      case NoInsn =>
      case Insn(name, op) =>
        ParseFromReturns(verdicts, i + 1,
                         if op > -1 then words + [OpWord(op)] else words,
                         if name.Some? then labels[name.value := |words|] else labels);
    }
  }

  /** The word line i appends, if any. */
  function WordsOf(v: Verdict): seq<u32> {
    match v
    case Insn(_, op) => if op > -1 then [OpWord(op)] else []
    case _ => []
  }

  /** The label table after line i. */
  function LabelsAfter(v: Verdict, words: seq<u32>, labels: map<string, nat>): map<string, nat> {
    if v.Insn? && v.name.Some? then labels[v.name.value := |words|] else labels
  }

  /** One step of the loop over a line that does not stop it. */
  lemma ParseFromStep(verdicts: seq<Verdict>, i: nat, words: seq<u32>, labels: map<string, nat>)
    requires i < |verdicts| && verdicts[i] != NoInsn
    ensures ParseFrom(verdicts, i, words, labels)
         == ParseFrom(verdicts, i + 1, words + WordsOf(verdicts[i]), LabelsAfter(verdicts[i], words, labels))
    ensures FirstNoInsn(verdicts, i) == FirstNoInsn(verdicts, i + 1)
  {
    assert words + [] == words;
  }

  /** The words of lines lo..k are those of line lo followed by those of lines lo+1..k. */
  lemma EmittedCons(verdicts: seq<Verdict>, lo: nat, k: nat)
    requires lo < k <= |verdicts|
    ensures Emitted(verdicts[lo..k]) == WordsOf(verdicts[lo]) + Emitted(verdicts[lo + 1..k])
  {
    assert verdicts[lo..k][0] == verdicts[lo];
    assert verdicts[lo..k][1..] == verdicts[lo + 1..k];
  }

  /** Parse only appends: the vector ends as it was plus the words of the lines before the stop. */
  lemma {:induction false} ParseFromWords(verdicts: seq<Verdict>, i: nat, words: seq<u32>, labels: map<string, nat>)
    requires i <= |verdicts|
    ensures ParseFrom(verdicts, i, words, labels).words == words + Emitted(verdicts[i..FirstNoInsn(verdicts, i)])
    decreases |verdicts| - i
  {
    var n := FirstNoInsn(verdicts, i);
    if i == n {
      assert verdicts[i..n] == [];
      assert words + [] == words;
    } else {
      var v := verdicts[i];
      var w := WordsOf(v);
      var rest := Emitted(verdicts[i + 1..n]);
      ParseFromStep(verdicts, i, words, labels);
      ParseFromWords(verdicts, i + 1, words + w, LabelsAfter(v, words, labels));
      EmittedCons(verdicts, i, n);
      assert (words + w) + rest == words + (w + rest);
    }
  }

  /** Every appended word is an opcode shifted into bits 15-19. */
  lemma {:induction false} EmittedWords(verdicts: seq<Verdict>)
    ensures forall k :: 0 <= k < |Emitted(verdicts)| ==>
      Emitted(verdicts)[k] % 0x8000 == 0 && Emitted(verdicts)[k] < 0x10_0000
  {
    if verdicts != [] {
      EmittedWords(verdicts[1..]);
    }
  }

  /** Lines with an unknown mnemonic append nothing: the words are those of the known opcodes alone. */
  lemma {:induction false} EmittedKnown(verdicts: seq<Verdict>)
    ensures |Emitted(verdicts)| == |Known(verdicts)|
    ensures forall k :: 0 <= k < |Known(verdicts)| ==> Emitted(verdicts)[k] == OpWord(Known(verdicts)[k])
  {
    if verdicts != [] {
      EmittedKnown(verdicts[1..]);
    }
  }

  /** The opcodes of the lines with a known mnemonic, in order. */
  function Known(verdicts: seq<Verdict>): (ops: seq<int>)
    ensures forall k :: 0 <= k < |ops| ==> 0 <= ops[k] < 32
  {
    if verdicts == [] then []
    else
      (match verdicts[0]
       case Insn(_, op) => if op > -1 then [op as int] else []
       case _ => [])
      + Known(verdicts[1..])
  }

  /** The last line in verdicts[lo..hi] that defines label `l`. */
  function LastDef(verdicts: seq<Verdict>, lo: nat, hi: nat, l: string): (r: Option<nat>)
    requires lo <= hi <= |verdicts|
    ensures r.Some? ==> lo <= r.value < hi && verdicts[r.value].Insn? && verdicts[r.value].name == Some(l)
    ensures r.Some? ==> forall k :: r.value < k < hi ==> !(verdicts[k].Insn? && verdicts[k].name == Some(l))
    ensures r.None? ==> forall k :: lo <= k < hi ==> !(verdicts[k].Insn? && verdicts[k].name == Some(l))
    decreases hi - lo
  {
    if hi == lo then None
    else if verdicts[hi - 1].Insn? && verdicts[hi - 1].name == Some(l) then Some(hi - 1)
    else LastDef(verdicts, lo, hi - 1, l)
  }

  /**
   * Every label keeps the address of its last definition before the stop: the
   * length of the vector before that line, i.e. the starting length plus the
   * words the lines before it appended. A name no line defines keeps its old entry.
   */
  lemma {:induction false} ParseFromLabels(verdicts: seq<Verdict>, i: nat, words: seq<u32>, labels: map<string, nat>, l: string)
    requires i <= |verdicts|
    ensures var r := ParseFrom(verdicts, i, words, labels);
      match LastDef(verdicts, i, FirstNoInsn(verdicts, i), l)
      case Some(k) => l in r.labels && r.labels[l] == |words| + |Emitted(verdicts[i..k])|
      case None => (l in r.labels <==> l in labels) && (l in labels ==> r.labels[l] == labels[l])
    decreases |verdicts| - i
  {
    var n := FirstNoInsn(verdicts, i);
    if i < n {
      var v := verdicts[i];
      ParseFromStep(verdicts, i, words, labels);
      ParseFromLabels(verdicts, i + 1, words + WordsOf(v), LabelsAfter(v, words, labels), l);
      LastDefStep(verdicts, i, n, l);
      match LastDef(verdicts, i + 1, n, l)
      case Some(k) =>
        EmittedCons(verdicts, i, k);
      case None =>
        if v.Insn? && v.name == Some(l) {
          assert verdicts[i..i] == [];
        }
    }
  }

  /** Looking further back by one line finds the same definition, or that line. */
  lemma {:induction false} LastDefStep(verdicts: seq<Verdict>, lo: nat, hi: nat, l: string)
    requires lo < hi <= |verdicts|
    ensures LastDef(verdicts, lo, hi, l) ==
      match LastDef(verdicts, lo + 1, hi, l)
      case Some(k) => Some(k)
      case None => if verdicts[lo].Insn? && verdicts[lo].name == Some(l) then Some(lo) else None
    decreases hi - lo
  {
    if lo + 1 < hi {
      LastDefStep(verdicts, lo, hi - 1, l);
    }
  }

  // ---------------------------------------------------------------------------
  // Whole files
  // ---------------------------------------------------------------------------

  /**
   * Parse returns 0 exactly when every line (up to its first NUL) is blank or
   * holds an uppercase letter (a mnemonic); otherwise it returns the 1-based
   * number of the first line that does neither, blank lines before it counted.
   */
  lemma ParseLinesReturns(lines: seq<string>, words: seq<u32>)
    ensures var r := ParseLines(lines, words).ret;
      (r == 0 <==> forall k :: 0 <= k < |lines| ==> AllSpace(UpToNul(lines[k])) || HasUpper(UpToNul(lines[k])))
      && (r != 0 ==>
            r <= |lines| && !AllSpace(UpToNul(lines[r - 1])) && !HasUpper(UpToNul(lines[r - 1]))
            && forall k :: 0 <= k < r - 1 ==> AllSpace(UpToNul(lines[k])) || HasUpper(UpToNul(lines[k])))
  {
    var verdicts := Verdicts(lines, OpTable());
    ParseFromReturns(verdicts, 0, words, map[]);
    forall k | 0 <= k < |lines|
      ensures verdicts[k] == NoInsn <==> !AllSpace(UpToNul(lines[k])) && !HasUpper(UpToNul(lines[k]))
    {
      ClassifyNoInsn(UpToNul(lines[k]), OpTable());
    }
  }

  /**
   * Parse only appends to the vector, and every word it appends is an opcode
   * shifted into bits 15-19: bits 0-14 are zero and the word is below 2^20.
   */
  lemma ParseLinesAppends(lines: seq<string>, words: seq<u32>)
    ensures var r := ParseLines(lines, words).words;
      |words| <= |r| && r[..|words|] == words
      && forall k :: |words| <= k < |r| ==> r[k] % 0x8000 == 0 && r[k] < 0x10_0000
  {
    var verdicts := Verdicts(lines, OpTable());
    var n := FirstNoInsn(verdicts, 0);
    ParseFromWords(verdicts, 0, words, map[]);
    EmittedWords(verdicts[0..n]);
    var r := ParseLines(lines, words).words;
    assert r[..|words|] == words;
    forall k | |words| <= k < |r| ensures r[k] % 0x8000 == 0 && r[k] < 0x10_0000 {
      assert r[k] == Emitted(verdicts[0..n])[k - |words|];
    }
  }

  // ---------------------------------------------------------------------------
  // The class
  // ---------------------------------------------------------------------------

  /** AsmParser's static state: the opcode table, empty until StrToOpcode first fills it. */
  class AsmParser {
    var opmap: map<string, Enumerator>
    /** What the table holds once it is filled. */
    ghost const full: map<string, Enumerator>

    /** The table is either still empty or completely filled. */
    ghost predicate Valid()
      reads this
    {
      full == OpTable() && (opmap == map[] || opmap == full)
    }

    constructor ()
      ensures Valid() && opmap == map[]
    {
      opmap := map[];
      full := OpTable();
    }

    /**
     * StrToOpcode(cmd): fill the table if it is empty, then return cmd's
     * opcode value, or -1 when cmd is not a key. Afterwards the table is
     * filled, so every call gives the same answer.
     */
    method StrToOpcode(cmd: string) returns (op: OpResult)
      requires Valid()
      modifies this
      ensures Valid() && opmap == OpTable()
      ensures op == Opcode(cmd)
    {
      if |opmap| == 0 {
        // the assignments opmap[key] = enumerator, in the order of Inserts
        opmap := Filled(Inserts);
        InsertsFillTable();
      }
      if cmd in opmap {
        op := Value(opmap[cmd]);
      } else {
        op := -1;
      }
    }

    /**
     * The second half of Parse's loop body: record the label (without its
     * colon) at the vector's current length, look the upper-cased mnemonic up
     * and append the word of a known opcode.
     */
    method Emit(labelText: string, insn: string, outvec: WordVector, labels: map<string, nat>)
      returns (labels': map<string, nat>)
      requires Valid()
      modifies this, outvec
      ensures Valid()
      ensures outvec.cells == old(outvec.cells) + WordsOf(InsnVerdict(labelText, insn, OpTable()))
      ensures labels' == LabelsAfter(InsnVerdict(labelText, insn, OpTable()), old(outvec.cells), labels)
    {
      ghost var name := if labelText == [] then None else Some(Chop(labelText));
      ghost var n := |outvec.cells|;
      labels' := labels;
      var key := labelText;
      if key != [] {
        key := Chop(key);
        labels' := labels'[key := |outvec.cells|];
        assert labels' == labels[name.value := n];
      } else {
        assert labels' == labels;
      }
      var op := StrToOpcode(ToUpper(insn));
      ghost var v := Insn(name, op);
      assert InsnVerdict(labelText, insn, OpTable()) == v;
      if op > -1 {
        var memline := OpWord(op);
        outvec.Append(memline);
      }
      assert n == |old(outvec.cells)|;
      assert LabelsAfter(v, old(outvec.cells), labels) == if name.Some? then labels[name.value := n] else labels;
    }

    /**
     * Parse's loop body on one line: nothing for a blank line, false for a
     * line without a mnemonic, otherwise what Emit does with its trimmed
     * captures.
     */
    method ParseLine(line: string, outvec: WordVector, labels: map<string, nat>)
      returns (ok: bool, labels': map<string, nat>)
      requires Valid()
      modifies this, outvec
      ensures Valid()
      ensures ok <==> Classify(line, OpTable()) != NoInsn
      ensures !ok ==> outvec.cells == old(outvec.cells)
      ensures ok ==> outvec.cells == old(outvec.cells) + WordsOf(Classify(line, OpTable()))
      ensures ok ==> labels' == LabelsAfter(Classify(line, OpTable()), old(outvec.cells), labels)
    {
      if Trimmed(line) == [] {
        assert outvec.cells == old(outvec.cells) + [];
        return true, labels;
      }
      var m := Captured(line);
      var labelText := Trimmed(m.labelText);
      var insn := Trimmed(m.insnText);
      ClassifyCaptures(line, OpTable(), labelText, insn);
      if insn == [] {
        return false, labels;
      }
      labels' := Emit(labelText, insn, outvec, labels);
      ok := true;
    }

    /**
     * Parse(infile, outvec): assemble the file holding `text` into `outvec`.
     * The result and the new vector are those of ParseLines on the file's
     * lines and the old vector.
     */
    method Parse(text: string, outvec: WordVector) returns (ret: int)
      requires Valid()
      modifies this, outvec
      ensures Valid()
      ensures ret == ParseLines(ReadLines(text), old(outvec.cells)).ret
      ensures outvec.cells == ParseLines(ReadLines(text), old(outvec.cells)).words
    {
      var labels: map<string, nat> := map[];
      var lines := ReadLines(text);
      ghost var verdicts := Verdicts(lines, OpTable());
      var lnum := 0;
      var i := 0;
      while i < |lines|
        invariant 0 <= i <= |lines| && lnum == i
        invariant Valid()
        invariant ParseFrom(verdicts, i, outvec.cells, labels) == ParseLines(lines, old(outvec.cells))
      {
        lnum := lnum + 1;
        ghost var before := outvec.cells;
        ghost var labelsBefore := labels;
        var ok;
        var line := UpToNul(lines[i]);
        ok, labels := ParseLine(line, outvec, labels);
        assert verdicts[i] == Classify(line, OpTable());
        if !ok {
          return lnum;
        }
        ParseFromStep(verdicts, i, before, labelsBefore);
        i := i + 1;
      }
      return 0;
    }
  }
}

