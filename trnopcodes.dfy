/**
 * The TRN opcode numbering of trnopcodes.h.
 *
 * The header declares one C++ enumeration, TrnOpcode. An enumerator either
 * names an earlier enumerator as its initializer (an alias, `INX = INA`) or,
 * without one, takes its predecessor's value plus one (the first takes 0).
 * The model states the resulting constant table (`Value`) together with the
 * initializers (`Initializer`) and the base enumerators in declaration order
 * (`BaseOrder`), and proves what the header promises: every value fits in
 * 5 bits, the base opcodes are numbered 0..31 consecutively and are pairwise
 * distinct, and every alias has its initializer's value.
 */
module TrnOpcodes {
  import opened Wrappers

  /** Every enumerator name declared in TrnOpcode, aliases included, in declaration order. */
  datatype Enumerator =
    | NOP | LDA | LDX | LDI | STA | STX | STI | ENA | PSH | POP
    | INA | INX | INI | DCA | DCX | DCI
    | ENI | LSP | ADA | SUB | AND | ORA | XOR | CMA
    | JMP | JPN | JAG | JPZ | JPO | JSR | JIG
    | SHAL | SHAR | SHXL | SHXR
    | SSP | SAXL | SAXR | INP | OUT | RET | HLT

  /**
   * The enumerator an alias names as its initializer (`INX = INA`); None for
   * an enumerator declared without one.
   */
  function Initializer(e: Enumerator): Option<Enumerator> {
    match e
    case INX | INI | DCA | DCX | DCI => Some(INA)
    case SHAR | SHXL | SHXR => Some(SHAL)
    case SAXR => Some(SAXL)
    case OUT => Some(INP)
    case _ => None
  }

  /** The opcode value of every enumerator, as a constant table. */
  function Value(e: Enumerator): (v: int)
    ensures 0 <= v < 32
  {
    match e
    case NOP => 0  case LDA => 1  case LDX => 2  case LDI => 3
    case STA => 4  case STX => 5  case STI => 6  case ENA => 7
    case PSH => 8  case POP => 9
    case INA => 10 case INX => 10 case INI => 10 case DCA => 10 case DCX => 10 case DCI => 10
    case ENI => 11 case LSP => 12 case ADA => 13 case SUB => 14
    case AND => 15 case ORA => 16 case XOR => 17 case CMA => 18
    case JMP => 19 case JPN => 20 case JAG => 21 case JPZ => 22
    case JPO => 23 case JSR => 24 case JIG => 25
    case SHAL => 26 case SHAR => 26 case SHXL => 26 case SHXR => 26
    case SSP => 27 case SAXL => 28 case SAXR => 28
    case INP => 29 case OUT => 29 case RET => 30 case HLT => 31
  }

  /** An enumerator declared without an initializer: a base opcode rather than an alias. */
  predicate IsBase(e: Enumerator) {
    Initializer(e).None?
  }

  /** The base enumerators in declaration order. */
  const BaseOrder: seq<Enumerator> :=
    [NOP, LDA, LDX, LDI, STA, STX, STI, ENA, PSH, POP, INA, ENI, LSP, ADA, SUB, AND,
     ORA, XOR, CMA, JMP, JPN, JAG, JPZ, JPO, JSR, JIG, SHAL, SSP, SAXL, INP, RET, HLT]

  /**
   * The base enumerators are numbered consecutively in declaration order:
   * the i-th one (from 0) has value i, from NOP = 0 to HLT = 31.
   */
  lemma BaseOrderConsecutive(i: int)
    requires 0 <= i < |BaseOrder|
    ensures IsBase(BaseOrder[i]) && Value(BaseOrder[i]) == i
  {
    if 0 <= i < 4 { ConsecutiveBelow4(i); }
    if 4 <= i < 8 { ConsecutiveBelow8(i); }
    if 8 <= i < 12 { ConsecutiveBelow12(i); }
    if 12 <= i < 16 { ConsecutiveBelow16(i); }
    if 16 <= i < 20 { ConsecutiveBelow20(i); }
    if 20 <= i < 24 { ConsecutiveBelow24(i); }
    if 24 <= i < 28 { ConsecutiveBelow28(i); }
    if 28 <= i < 32 { ConsecutiveBelow32(i); }
  }

  lemma ConsecutiveBelow4(i: int)
    requires 0 <= i < 4
    ensures IsBase(BaseOrder[i]) && Value(BaseOrder[i]) == i
  {
  }

  lemma ConsecutiveBelow8(i: int)
    requires 4 <= i < 8
    ensures IsBase(BaseOrder[i]) && Value(BaseOrder[i]) == i
  {
  }

  lemma ConsecutiveBelow12(i: int)
    requires 8 <= i < 12
    ensures IsBase(BaseOrder[i]) && Value(BaseOrder[i]) == i
  {
  }

  lemma ConsecutiveBelow16(i: int)
    requires 12 <= i < 16
    ensures IsBase(BaseOrder[i]) && Value(BaseOrder[i]) == i
  {
  }

  lemma ConsecutiveBelow20(i: int)
    requires 16 <= i < 20
    ensures IsBase(BaseOrder[i]) && Value(BaseOrder[i]) == i
  {
  }

  lemma ConsecutiveBelow24(i: int)
    requires 20 <= i < 24
    ensures IsBase(BaseOrder[i]) && Value(BaseOrder[i]) == i
  {
  }

  lemma ConsecutiveBelow28(i: int)
    requires 24 <= i < 28
    ensures IsBase(BaseOrder[i]) && Value(BaseOrder[i]) == i
  {
  }

  lemma ConsecutiveBelow32(i: int)
    requires 28 <= i < 32
    ensures IsBase(BaseOrder[i]) && Value(BaseOrder[i]) == i
  {
  }

  /** An alias has exactly the value of the enumerator its initializer names, itself a base opcode. */
  lemma AliasValue(e: Enumerator)
    requires Initializer(e).Some?
    ensures IsBase(Initializer(e).value)
    ensures Value(e) == Value(Initializer(e).value)
  {
  }

  /** Every base enumerator is in the declaration order. */
  lemma BaseListed(e: Enumerator)
    requires IsBase(e)
    ensures e in BaseOrder
  {
  }

  /** Every base enumerator appears in the declaration order at the position given by its value. */
  lemma BaseAtItsValue(e: Enumerator)
    requires IsBase(e)
    ensures Value(e) < |BaseOrder| && BaseOrder[Value(e)] == e
  {
    BaseListed(e);
    var k :| 0 <= k < |BaseOrder| && BaseOrder[k] == e;
    BaseOrderConsecutive(k);
  }

  /** Hence the 32 base opcodes have pairwise distinct values. */
  lemma BaseValuesDistinct(a: Enumerator, b: Enumerator)
    requires IsBase(a) && IsBase(b) && a != b
    ensures Value(a) != Value(b)
  {
    BaseAtItsValue(a);
    BaseAtItsValue(b);
  }

  /** The alias families of the header share one value each. */
  lemma IncDecFamily()
    ensures Value(INA) == Value(INX) == Value(INI) == Value(DCA) == Value(DCX) == Value(DCI) == 10
  {
  }

  lemma ShiftFamily()
    ensures Value(SHAL) == Value(SHAR) == Value(SHXL) == Value(SHXR) == 26
  {
  }

  lemma CombinedShiftFamily()
    ensures Value(SAXL) == Value(SAXR) == 28
  {
  }

  lemma InOutFamily()
    ensures Value(INP) == Value(OUT) == 29
  {
  }

  /** The first enumerator is NOP = 0 and the last is HLT = 31. */
  lemma FirstAndLast()
    ensures Value(NOP) == 0 && Value(HLT) == 31
  {
  }

  /** Every enumerator name, aliases included, in declaration order. */
  const Declared: seq<Enumerator> :=
    [NOP, LDA, LDX, LDI, STA, STX, STI, ENA, PSH, POP,
     INA, INX, INI, DCA, DCX, DCI, ENI, LSP, ADA, SUB,
     AND, ORA, XOR, CMA, JMP, JPN, JAG, JPZ, JPO, JSR,
     JIG, SHAL, SHAR, SHXL, SHXR, SSP, SAXL, SAXR, INP, OUT,
     RET, HLT]

  /**
   * The C++ numbering rule: an enumerator with an initializer takes that
   * enumerator's value; one without takes its predecessor's value plus one,
   * and the first takes 0.
   */
  predicate NumberedByRule(i: int)
    requires 0 <= i < |Declared|
  {
    Value(Declared[i]) ==
      match Initializer(Declared[i])
      case Some(init) => Value(init)
      case None => if i == 0 then 0 else Value(Declared[i - 1]) + 1
  }

  /** Every enumerator is declared. */
  lemma DeclaredAll(e: Enumerator)
    ensures e in Declared
  {
  }

  /**
   * The value table follows the numbering rule at every position of the
   * declaration, including each base enumerator that follows an alias run.
   */
  lemma DeclarationRule(i: int)
    requires 0 <= i < |Declared|
    ensures NumberedByRule(i)
  {
    if 0 <= i < 3 { RuleBelow3(i); }
    if 3 <= i < 6 { RuleBelow6(i); }
    if 6 <= i < 9 { RuleBelow9(i); }
    if 9 <= i < 12 { RuleBelow12(i); }
    if 12 <= i < 15 { RuleBelow15(i); }
    if 15 <= i < 18 { RuleBelow18(i); }
    if 18 <= i < 21 { RuleBelow21(i); }
    if 21 <= i < 24 { RuleBelow24(i); }
    if 24 <= i < 27 { RuleBelow27(i); }
    if 27 <= i < 30 { RuleBelow30(i); }
    if 30 <= i < 33 { RuleBelow33(i); }
    if 33 <= i < 36 { RuleBelow36(i); }
    if 36 <= i < 39 { RuleBelow39(i); }
    if 39 <= i < 42 { RuleBelow42(i); }
  }

  lemma RuleBelow3(i: int)
    requires 0 <= i < 3
    ensures NumberedByRule(i)
  {
  }

  lemma RuleBelow6(i: int)
    requires 3 <= i < 6
    ensures NumberedByRule(i)
  {
  }

  lemma RuleBelow9(i: int)
    requires 6 <= i < 9
    ensures NumberedByRule(i)
  {
  }

  lemma RuleBelow12(i: int)
    requires 9 <= i < 12
    ensures NumberedByRule(i)
  {
  }

  lemma RuleBelow15(i: int)
    requires 12 <= i < 15
    ensures NumberedByRule(i)
  {
  }

  lemma RuleBelow18(i: int)
    requires 15 <= i < 18
    ensures NumberedByRule(i)
  {
  }

  lemma RuleBelow21(i: int)
    requires 18 <= i < 21
    ensures NumberedByRule(i)
  {
  }

  lemma RuleBelow24(i: int)
    requires 21 <= i < 24
    ensures NumberedByRule(i)
  {
  }

  lemma RuleBelow27(i: int)
    requires 24 <= i < 27
    ensures NumberedByRule(i)
  {
  }

  lemma RuleBelow30(i: int)
    requires 27 <= i < 30
    ensures NumberedByRule(i)
  {
  }

  lemma RuleBelow33(i: int)
    requires 30 <= i < 33
    ensures NumberedByRule(i)
  {
  }

  lemma RuleBelow36(i: int)
    requires 33 <= i < 36
    ensures NumberedByRule(i)
  {
  }

  lemma RuleBelow39(i: int)
    requires 36 <= i < 39
    ensures NumberedByRule(i)
  {
  }

  lemma RuleBelow42(i: int)
    requires 39 <= i < 42
    ensures NumberedByRule(i)
  {
  }

  /** The four places where a base enumerator follows an alias, in particular. */
  lemma SuccessorOfIncDec()
    ensures Value(ENI) == Value(DCI) + 1
  {
  }

  lemma SuccessorOfShift()
    ensures Value(SSP) == Value(SHXR) + 1
  {
  }

  lemma SuccessorOfSaxr()
    ensures Value(INP) == Value(SAXR) + 1
  {
  }

  lemma SuccessorOfOut()
    ensures Value(RET) == Value(OUT) + 1
  {
  }
}
