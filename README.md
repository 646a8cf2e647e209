# bettertrn: opcode table, assembler first pass and memory-image codec

bettertrn is an emulator and assembler for the TRN, a small educational
20-bit computer. This project models three parts of it in Dafny and proves
properties of the model.

- **The opcode numbering** (`trnopcodes.h`). The model has the 42 enumerator
  names, the alias initializers and the resulting 5-bit values
  (module `TrnOpcodes`).
- **The assembler's first pass** (`asmparser.cpp`):
  - the opcode table, which `StrToOpcode` fills lazily on its first call;
  - `OpcodeHasArgs`;
  - the line loop of `Parse`: blank lines are skipped, each other line is
    tokenized by the regular expression `([A-Z]+:)?[ \t]*([A-Z]+)[ \t]*(.+)?`,
    a label is recorded at the current vector length, and `op << 15` is
    appended for each known mnemonic.

  On the modelling side:
  - module `Assembler` holds the class `AsmParser`, whose field is the static
    `opmap`;
  - the tokenizer is module `AsmTokenizer`;
  - the Qt string primitives are module `QtText`;
  - the `QVector<quint32>` passed by reference is the class
    `Words.WordVector`.
- **The memory-image codec** (`mifserializer.cpp`). `MifToVector` reads
  `<binary address>\t<binary value>` lines into a vector, growing it with zero
  cells. `VectorToMif` writes every cell as a 13-digit binary address, a tab,
  a 20-digit binary value and a newline (module `MifSerializer`).

The loops stay loops.
- `AsmParser.Parse` and `MifSerializer.MifToVector` are `while` loops that
  change a `WordVector` in place. Each is proved equal to a function of its
  input: `ParseLines` and `Decode`.
- `VectorToMif` is a loop over the cells that stops at the first write
  that returns 0. A write that fails with -1 is not noticed, because the
  source only tests the result for zero.

The properties proved about those functions are:
- the return-value characterisations (0, or the 1-based number of the first
  bad line);
- that the vector is only appended to;
- the shape of every emitted word;
- where labels point;
- what every cell holds after decoding;
- the round trip from `VectorToMif` through `MifToVector`.

This snapshot of the assembler has no second pass. It parses no operands and
strips no comments. It handles no pseudo-operations: asmparser.cpp:66-68 only
names NAM, CON, RES, ORG, ENT, END and EXT in a comment. The model has none of
these either.

## Model

| member | source | states |
|---|---|---|
| TrnOpcodes.Value | trnopcodes.h:6-49 | every enumerator's value lies in 0..31, so it fits in 5 bits |
| TrnOpcodes.BaseOrderConsecutive | trnopcodes.h:7-48 | the i-th enumerator declared without an initializer has value i, from NOP = 0 to HLT = 31 |
| TrnOpcodes.AliasValue | trnopcodes.h:17-46 | an alias names a base enumerator as its initializer and has exactly that enumerator's value |
| TrnOpcodes.BaseAtItsValue | trnopcodes.h:7-48 | each base enumerator sits at the position of its value in declaration order |
| TrnOpcodes.BaseValuesDistinct | trnopcodes.h:6-49 | two different base enumerators have different values |
| TrnOpcodes.IncDecFamily | trnopcodes.h:17-22 | INA, INX, INI, DCA, DCX and DCI all have value 10 |
| TrnOpcodes.ShiftFamily | trnopcodes.h:38-41 | SHAL, SHAR, SHXL and SHXR all have value 26 |
| TrnOpcodes.CombinedShiftFamily | trnopcodes.h:43-44 | SAXL and SAXR both have value 28 |
| TrnOpcodes.InOutFamily | trnopcodes.h:45-46 | INP and OUT both have value 29 |
| TrnOpcodes.FirstAndLast | trnopcodes.h:7-48 | NOP is 0 and HLT is 31 |
| TrnOpcodes.SuccessorOfIncDec | trnopcodes.h:22-23 | ENI is one more than the alias DCI just before it |
| TrnOpcodes.SuccessorOfShift | trnopcodes.h:41-42 | SSP is one more than the alias SHXR just before it |
| TrnOpcodes.SuccessorOfSaxr | trnopcodes.h:44-45 | INP is one more than the alias SAXR just before it |
| TrnOpcodes.SuccessorOfOut | trnopcodes.h:46-47 | RET is one more than the alias OUT just before it |
| TrnOpcodes.DeclaredAll | trnopcodes.h:6-49 | the declaration order lists every enumerator |
| TrnOpcodes.DeclarationRule | trnopcodes.h:6-49 | at every position of the declaration the value follows the C++ rule: an alias takes its initializer's value, the first enumerator takes 0, and any other takes its predecessor's value plus one |
| Assembler.RecognizeMnemonic | asmparser.cpp:86-128 | the letter-by-letter reading of mnemonics reads every table key back as its own enumerator |
| Assembler.MnemonicInjective | asmparser.cpp:86-128 | no two enumerators are entered under the same key |
| Assembler.RecognizeSound | asmparser.cpp:86-128 | the letter-by-letter reading accepts only table keys |
| Assembler.FilledIsTable | asmparser.cpp:86-128 | since keys are distinct, assigning them one after another builds exactly the map from each entered key to its enumerator |
| Assembler.InsertsFillTable | asmparser.cpp:84-129 | the 43 assignments build the table of all 42 enumerators under their keys |
| Assembler.CompleteTable | asmparser.cpp:86-128 | any assignment sequence that enters every enumerator builds the whole table |
| Assembler.DuplicateShalHarmless | asmparser.cpp:117-119 | the second SHAL assignment changes nothing: the table is the same without it |
| Assembler.OpcodeMnemonic | asmparser.cpp:130-131 | each key looks up to its enumerator's value |
| Assembler.OpcodeRecognize | asmparser.cpp:130-133 | the lookup agrees with the letter-by-letter reading on every string, and is -1 for every string that is not a key |
| Assembler.OpcodeOutp | asmparser.cpp:126 | "OUTP" looks up to 29 and "OUT" is not a key |
| Assembler.OpcodeCaseSensitive | asmparser.cpp:130-133 | the lookup is exact: "NOP" gives 0 and "nop" gives -1 |
| Assembler.OpcodePseudo | asmparser.cpp:64-69 | the pseudo-instructions NAM, END and ORG are not keys, so they give -1 |
| Assembler.OpcodeAlias | asmparser.cpp:97-101 | an alias's key looks up to the same value as its initializer's key |
| Assembler.OpcodeHasArgs | asmparser.cpp:136-143 | false for every opcode |
| Assembler.OpWord | asmparser.cpp:60 | the word of opcode op has bits 0-14 zero, holds op in the bits above, and is below 2^20 |
| Assembler.Chop | asmparser.cpp:49 | removing the last character: the result followed by that character is the label capture |
| Assembler.ClassifyBlank | asmparser.cpp:27-31 | a line is skipped as blank exactly when it is all white space |
| Assembler.ClassifyNoInsn | asmparser.cpp:32-43 | a non-blank line is a syntax error exactly when it holds no uppercase ASCII letter |
| Assembler.ClassifyInsn | asmparser.cpp:35-57 | otherwise the opcode is the lookup of the captured mnemonic exactly as captured (trimming and upper-casing change nothing), and the label is the captured label without its colon |
| Assembler.ParseFromReturns | asmparser.cpp:22-43 | the loop returns 0 when it reaches the end, or 1 + the index of the first line without a mnemonic |
| Assembler.ParseFromWords | asmparser.cpp:56-63 | the loop only appends: the result is the old vector followed by the words of the lines before the stop |
| Assembler.EmittedKnown | asmparser.cpp:57-69 | a line with an unknown mnemonic appends nothing; the words are OpWord of the known opcodes, one each, in line order |
| Assembler.EmittedWords | asmparser.cpp:60-62 | every appended word has bits 0-14 zero and is below 2^20 |
| Assembler.ParseFromLabels | asmparser.cpp:45-54 | each label holds the vector length just before its last definition before the stop; a name that no line defines keeps its old entry |
| Assembler.NulLineBlank | asmparser.cpp:25-31 | a line whose chunk starts with a NUL becomes an empty QString, so it is skipped as blank whatever follows the NUL |
| Assembler.ParseLinesReturns | asmparser.cpp:20-43 | Parse returns 0 exactly when every line, cut at its first NUL, is blank or holds an uppercase letter; otherwise it returns the 1-based number of the first line that is neither, with blank lines counted |
| Assembler.ParseLinesAppends | asmparser.cpp:56-63 | the old vector is a prefix of the result, and every added word has bits 0-14 zero and is below 2^20 |
| Assembler.AsmParser.constructor | asmparser.cpp:10 | the static table starts empty |
| Assembler.AsmParser.StrToOpcode | asmparser.cpp:81-134 | fills the table when it is empty, leaves it full, and returns the value of the entered enumerator, or -1; the result is the same on every call |
| Assembler.AsmParser.Emit | asmparser.cpp:45-63 | records the label without its colon at the current length, and appends OpWord(op) when the upper-cased mnemonic is known |
| Assembler.AsmParser.ParseLine | asmparser.cpp:25-63 | a blank line changes nothing; a line without a mnemonic reports failure and changes nothing; any other line appends that line's word and records its label |
| Assembler.AsmParser.Parse | asmparser.cpp:12-79 | each chunk readLine returns becomes a QString cut at its first NUL; the return value and the final vector are those of ParseLines on the file's lines, starting from the vector's old cells |
| AsmTokenizer.Match | asmparser.cpp:21 | the reported boundaries are a match of the pattern, and every repetition is greedy |
| AsmTokenizer.MatchExists | asmparser.cpp:32 | a line has a match exactly when it holds an uppercase letter |
| AsmTokenizer.MatchLeftmost | asmparser.cpp:32 | no match of the pattern starts before the reported one |
| AsmTokenizer.MatchPrefersLabel | asmparser.cpp:21 | when a match at the reported start can take the optional label, the reported match takes the same label |
| AsmTokenizer.CapturedInsn | asmparser.cpp:36 | the mnemonic capture is empty exactly when the line has no uppercase letter, and otherwise it is all uppercase |
| AsmTokenizer.CapturedLabel | asmparser.cpp:35 | a non-empty label capture is uppercase letters followed by a colon |
| QtText.Trimmed | asmparser.cpp:27 | the trimmed string is a contiguous piece of the input, with only white space cut off each end, and it neither starts nor ends with white space |
| QtText.BlankIffAllSpace | asmparser.cpp:27 | trimming leaves nothing exactly when the line is all white space |
| QtText.Split | mifserializer.cpp:12 | splitting gives one more part than there are separators, and no part holds the separator |
| QtText.JoinSplit | mifserializer.cpp:12 | joining the parts with the separator gives the line back |
| QtText.SplitJoin | mifserializer.cpp:12 | splitting a join of separator-free parts gives those parts |
| QtText.ReadLines | mifserializer.cpp:5-33 | readLine's chunks are non-empty, have a newline at most at their end, every chunk but the last ends with a newline, and together they make up the file |
| QtText.UpToNul | asmparser.cpp:25 | the QString built from a chunk is the longest prefix of the chunk without a NUL: it stops exactly at the first NUL |
| QtText.UpToNulKeeps | mifserializer.cpp:11 | a chunk without a NUL becomes a QString of all its characters |
| QtText.ReadLinesConcat | mifserializer.cpp:41-46 | reading back newline-terminated lines that were written one after another gives those lines |
| MifSerializer.PadBinaryValue | mifserializer.cpp:43 | the zero-padded digits still denote the number |
| MifSerializer.FieldWidths | mifserializer.cpp:43 | addresses below 2^13 print as exactly 13 digits and values below 2^20 as exactly 20 |
| MifSerializer.ToUShort | mifserializer.cpp:18-20 | an accepted address fits in 16 bits |
| MifSerializer.DecodeLine | mifserializer.cpp:12-24 | an accepted line names an address below 2^16 |
| MifSerializer.Store | mifserializer.cpp:28-31 | after an accepted line the vector is at least address+1 long and holds the value at the address; every other old cell is unchanged and the cells growth creates are 0 |
| MifSerializer.StoreLine | mifserializer.cpp:12-31 | a bad line reports failure and leaves the vector as it was; an accepted line leaves the vector as Store describes |
| MifSerializer.MifToVector | mifserializer.cpp:3-36 | each chunk becomes a QString cut at its first NUL; the return value and the final vector are those of Decode on the file's lines, starting from the vector's old cells |
| MifSerializer.NulCutsLine | mifserializer.cpp:11-31 | what follows a NUL on a line is not seen: the chunk "1\t1\0\n" stores 1 at address 1 |
| MifSerializer.DecodeFromSucceedsIff | mifserializer.cpp:7-35 | the loop returns 0 exactly when every line from here on is accepted |
| MifSerializer.DecodeFromStopsAtFirstBad | mifserializer.cpp:9-24 | otherwise it returns 1 + the index of the first bad line |
| MifSerializer.DecodeResult | mifserializer.cpp:7-35 | MifToVector returns 0 exactly when every line, cut at its first NUL, is accepted; otherwise it returns the number n of a bad line, and every line before n is accepted |
| MifSerializer.DecodeNeverShrinks | mifserializer.cpp:28-29 | the vector never gets shorter |
| MifSerializer.BlankLineRejected | mifserializer.cpp:12-20 | a blank line, even one that holds a single tab, is a bad line |
| MifSerializer.DecodeContents | mifserializer.cpp:26-31 | after a successful decode the vector is its old length or one past the largest address, whichever is greater; each cell holds the value of the last line naming its address, a cell no line names keeps its old value, and a cell created by growth is 0 |
| MifSerializer.Encode | mifserializer.cpp:41-43 | one line per cell |
| MifSerializer.VectorToMif | mifserializer.cpp:39-48 | the lines are handed over in index order; the result is 0 when no write returned 0, otherwise i+1 for the first write i that returned 0, with exactly lines 0..i handed over |
| MifSerializer.EncodeLineIsChunk | mifserializer.cpp:43 | a written line has its only newline at its end |
| MifSerializer.EncodeLineNoNul | mifserializer.cpp:43 | a written line holds no NUL |
| MifSerializer.ParsePadded | mifserializer.cpp:22 | zero-padded binary digits, with trailing white space, parse back to the number |
| MifSerializer.EncodeLineFields | mifserializer.cpp:43 | a written line splits on its one tab into the address digits and the value digits followed by the newline |
| MifSerializer.EncodeLineDecodes | mifserializer.cpp:12-43 | a written line whose address fits in 16 bits reads back as the same address and value |
| MifSerializer.DecodeEncodedFrom | mifserializer.cpp:7-35 | reading back the written lines from line k onward completes the vector once its first k cells are in place |
| MifSerializer.RoundTrip | mifserializer.cpp:3-48 | reading back into an empty vector the lines written for a vector of at most 65536 cells returns 0 and gives the vector back |
| MifSerializer.FileRoundTrip | mifserializer.cpp:3-48 | the same holds when the lines go through a file and come back through readLine |
| MifSerializer.WideAddressRejected | mifserializer.cpp:18-20 | the line written for cell 65536 is rejected when read back, because 65536 does not fit in an unsigned 16-bit number |
| Words.Resized | mifserializer.cpp:29 | resizing keeps the first cells and fills any new cells with 0 |
| Words.WordVector.Append | asmparser.cpp:62 | appends one word |
| Words.WordVector.Resize | mifserializer.cpp:29 | the cells become the resized old cells |
| Words.WordVector.Put | mifserializer.cpp:31 | one cell in range is overwritten and nothing else changes |

## Left out

- Reading and writing files. A file being read is its text, which `QtText.ReadLines` splits the way `QFile::readLine` does. Each write's return value is the parameter `written` of `VectorToMif`.
- The `qDebug` messages: the syntax error, the label, the opcode and the arguments. They only produce output.
- The third capture group (`args`) of Parse. It is trimmed and only printed.
- UTF-8 decoding of the bytes of a line. Lines are strings of characters. The one effect of Qt 5's `QString(const QByteArray &)` beyond decoding is modelled: it stops at the first NUL (`QtText.UpToNul`), in both Parse and MifToVector.
- `QString::toUpper` is modelled on ASCII letters only. The mnemonic it is applied to is always `[A-Z]+`, which `ClassifyInsn` proves, so the other letters never reach it.
- `QRegularExpression::PartialPreferCompleteMatch`: the model does not represent partial matches. A line without a complete match has none of the three groups, so in the model it captures nothing. The multiline option does not change this pattern, which has no anchors.
- The table entry at asmparser.cpp:126 names `TrnOpcodes::OUTP`, which trnopcodes.h does not declare. It is modelled as the enumerator OUT (value 29) entered under the key "OUTP". So "OUTP" is a key and "OUT" is not.
- Parse's `quint64 lnum` and its conversion to `int` on return are not modelled: the model's counters are unbounded. The same goes for the `int` index of VectorToMif's loop.
- Parse's local label table is returned by the modelling function `ParseLines`. The method drops it, as the source does on return.
- `AsmParser.Parse`: the loop body is written as two helper methods, `ParseLine` and `Emit`. They follow the source's statements in order. The same goes for `MifToVector`, whose loop body is the helper method `StoreLine`.
- `AsmParser.StrToOpcode`: the 43 assignments are one assignment of `Filled(Inserts)`. This is the same table built by the same assignments in the same order. The static QHash is a field of the class, and callers share one instance.
- `MifSerializer.ToULong`: `unsigned long` is taken as 64 bits, as on LP64 platforms. The stored value is truncated to 32 bits, as `quint32` assignment does.
- `MifSerializer.VectorToMif`: it takes the cells as a value, because the source reads the vector but never changes it.
- `MifSerializer.RoundTrip` requires at most 65536 cells. `WideAddressRejected` shows that a longer vector does not come back.
