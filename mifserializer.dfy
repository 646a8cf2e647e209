/**
 * The memory-image codec of mifserializer.cpp.
 *
 * A memory image is a text file with one line per cell,
 * `<address in binary>\t<value in binary>\n`. MifToVector reads such a file
 * line by line into a word vector, growing it with zero cells as addresses
 * demand; VectorToMif writes every cell of a vector in index order, padding
 * the address to 13 and the value to 20 binary digits.
 *
 * The Qt pieces the code relies on are modelled as functions: the base-2
 * number printing of QString::arg (`PadBinary`), the base-2 number parsing
 * of QString::toUShort and QString::toULong (`ToUShort`, `ToULong`), and
 * line splitting (QtText). File reading becomes the text of the file; each
 * write's return value becomes a parameter.
 */
module MifSerializer {
  import opened Wrappers
  import opened Words
  import opened QtText

  // ---------------------------------------------------------------------------
  // Binary digits
  // ---------------------------------------------------------------------------

  predicate IsBinaryDigit(c: char) {
    c == '0' || c == '1'
  }

  predicate IsBinary(s: string) {
    forall k :: 0 <= k < |s| ==> IsBinaryDigit(s[k])
  }

  /** The number a string of binary digits denotes, most significant digit first. */
  function BinaryValue(s: string): nat
    requires IsBinary(s)
  {
    if s == [] then 0
    else 2 * BinaryValue(s[..|s| - 1]) + (if s[|s| - 1] == '1' then 1 else 0)
  }

  function Pow2(k: nat): (p: nat)
    ensures p >= 1
  {
    if k == 0 then 1 else 2 * Pow2(k - 1)
  }

  /**
   * QString::number(n, 2): the binary digits of `n` without leading zeros,
   * "0" for zero. They denote `n`.
   */
  function Binary(n: nat): (r: string)
    ensures r != [] && IsBinary(r)
    ensures BinaryValue(r) == n
    ensures r[0] == '1' || r == "0"
  {
    var d := if n % 2 == 1 then '1' else '0';
    if n < 2 then [d]
    else
      var r := Binary(n / 2) + [d];
      assert r[..|r| - 1] == Binary(n / 2);
      r
  }

  /** `k` zero digits. */
  function ZeroDigits(k: nat): (z: string)
    ensures |z| == k && IsBinary(z)
    ensures forall j :: 0 <= j < k ==> z[j] == '0'
  {
    seq(k, _ => '0')
  }

  /**
   * QString::arg(n, width, 2, QChar('0')): the binary digits of `n`,
   * right-aligned in a field of at least `width` characters filled with '0'.
   */
  function PadBinary(n: nat, width: nat): (r: string)
    ensures IsBinary(r)
    ensures |r| == if |Binary(n)| < width then width else |Binary(n)|
  {
    ZeroDigits(if |Binary(n)| < width then width - |Binary(n)| else 0) + Binary(n)
  }

  /** Leading zeros do not change the value of a binary string. */
  lemma {:induction false} LeadingZerosValue(k: nat, s: string)
    requires IsBinary(s)
    ensures IsBinary(ZeroDigits(k) + s)
    ensures BinaryValue(ZeroDigits(k) + s) == BinaryValue(s)
    decreases |s|
  {
    var z := ZeroDigits(k);
    if s == [] {
      assert z + s == z;
      AllZerosValue(k);
    } else {
      var t := s[..|s| - 1];
      assert (z + s)[..|z + s| - 1] == z + t;
      LeadingZerosValue(k, t);
    }
  }

  lemma {:induction false} AllZerosValue(k: nat)
    ensures BinaryValue(ZeroDigits(k)) == 0
  {
    if k > 0 {
      assert ZeroDigits(k)[..k - 1] == ZeroDigits(k - 1);
      AllZerosValue(k - 1);
    }
  }

  /** The padded digits still denote `n`. */
  lemma PadBinaryValue(n: nat, width: nat)
    ensures BinaryValue(PadBinary(n, width)) == n
  {
    LeadingZerosValue(if |Binary(n)| < width then width - |Binary(n)| else 0, Binary(n));
  }

  /** A number below 2^k has at most k binary digits. */
  lemma {:induction false} BinaryLength(n: nat, k: nat)
    requires 1 <= k && n < Pow2(k)
    ensures |Binary(n)| <= k
  {
    if n >= 2 {
      BinaryLength(n / 2, k - 1);
    }
  }

  /** So addresses below 2^13 print as exactly 13 digits and values below 2^20 as exactly 20. */
  lemma FieldWidths(i: nat, v: nat)
    requires i < Pow2(13) && v < Pow2(20)
    ensures |PadBinary(i, 13)| == 13 && |PadBinary(v, 20)| == 20
  {
    BinaryLength(i, 13);
    BinaryLength(v, 20);
  }

  // ---------------------------------------------------------------------------
  // Number parsing
  // ---------------------------------------------------------------------------

  /** unsigned long (64 bits on LP64 platforms): parsed values must stay below this. */
  const ULongLimit: nat := 0x1_0000_0000_0000_0000

  /**
   * QString::toULong(&ok, 2): the field with QChar::isSpace characters trimmed
   * from both ends must be an optional '+' followed by one or more binary
   * digits whose value fits in an unsigned long. None where `ok` would be
   * false (empty, a '-' sign, another character, an overflow).
   */
  function ToULong(field: string): (r: Option<nat>)
    ensures r.Some? ==> r.value < ULongLimit
  {
    var t := Trimmed(field);
    var digits := if t != [] && t[0] == '+' then t[1..] else t;
    if digits != [] && IsBinary(digits) && BinaryValue(digits) < ULongLimit
    then Some(BinaryValue(digits))
    else None
  }

  /** QString::toUShort(&ok, 2): the same, and the value must fit in 16 bits. */
  function ToUShort(field: string): (r: Option<nat>)
    ensures r.Some? ==> r.value <= 0xFFFF
  {
    match ToULong(field)
    case Some(v) => if v <= 0xFFFF then Some(v) else None
    case None => None
  }

  // ---------------------------------------------------------------------------
  // Decoding: MifToVector
  // ---------------------------------------------------------------------------

  /** One accepted line of a memory image: the address and the value to store there. */
  datatype Cell = Cell(addr: nat, value: u32)

  /**
   * One line as MifToVector reads it: split on tabs it must give exactly two
   * fields, the first an unsigned 16-bit binary address and the second a
   * binary unsigned long, stored truncated to 32 bits. None for a bad line.
   */
  function DecodeLine(line: string): (r: Option<Cell>)
    ensures r.Some? ==> r.value.addr <= 0xFFFF
  {
    var fields := Split(line, '\t');
    if |fields| != 2 then None
    else
      match ToUShort(fields[0])
      case None => None
      case Some(a) =>
        match ToULong(fields[1])
        case None => None
        case Some(v) => Some(Cell(a, v % 0x1_0000_0000))
  }

  /**
   * One accepted line applied to the vector: grow it with zero cells so that
   * the address is in range, then store the value there.
   */
  function Store(cells: seq<u32>, c: Cell): (r: seq<u32>)
    ensures |r| == if |cells| < c.addr + 1 then c.addr + 1 else |cells|
    ensures r[c.addr] == c.value
    ensures forall k :: 0 <= k < |cells| && k != c.addr ==> r[k] == cells[k]
    ensures forall k :: |cells| <= k < |r| && k != c.addr ==> r[k] == 0
  {
    var grown := if |cells| < c.addr + 1 then Resized(cells, c.addr + 1) else cells;
    grown[c.addr := c.value]
  }

  /** What MifToVector returns and leaves in the vector. */
  datatype Decoded = Decoded(lnum: nat, cells: seq<u32>)

  /**
   * The verdict on every chunk of a file, made into a QString (cut at its
   * first NUL): its cell, or None for a bad line.
   */
  function DecodeLines(lines: seq<string>): (r: seq<Option<Cell>>)
    ensures |r| == |lines|
    ensures forall k :: 0 <= k < |lines| ==> r[k] == DecodeLine(UpToNul(lines[k]))
  {
    seq(|lines|, k requires 0 <= k < |lines| => DecodeLine(UpToNul(lines[k])))
  }

  /**
   * The line loop from line i on, given the verdict on every line: stop at
   * the first bad line with its 1-based number (keeping what earlier lines
   * stored), or return 0 after the last line.
   */
  function DecodeFrom(verdicts: seq<Option<Cell>>, i: nat, cells: seq<u32>): Decoded
    requires i <= |verdicts|
    decreases |verdicts| - i
  {
    if i == |verdicts| then Decoded(0, cells)
    else
      match verdicts[i]
      case None => Decoded(i + 1, cells)
      case Some(c) => DecodeFrom(verdicts, i + 1, Store(cells, c))
  }

  /** MifToVector on the lines of a file, starting from the vector's cells. */
  function Decode(lines: seq<string>, cells: seq<u32>): Decoded {
    DecodeFrom(DecodeLines(lines), 0, cells)
  }

  /**
   * MifToVector(f, vec): reads the file holding `text` line by line into `vec`
   * and returns 0, or the 1-based number of the first line it cannot parse.
   */
  method MifToVector(text: string, vec: WordVector) returns (lnum: int)
    modifies vec
    ensures lnum >= 0
    ensures Decoded(lnum, vec.cells) == Decode(ReadLines(text), old(vec.cells))
  {
    var lines := ReadLines(text);
    ghost var verdicts := DecodeLines(lines);
    var i := 0;
    lnum := 0;
    while i < |lines|
      invariant 0 <= i <= |lines| && lnum == i
      invariant DecodeFrom(verdicts, i, vec.cells) == Decode(lines, old(vec.cells))
      decreases |lines| - i
    {
      lnum := lnum + 1;
      var line := UpToNul(lines[i]);
      assert verdicts[i] == DecodeLine(line);
      var ok := StoreLine(line, vec);
      if !ok {
        return;
      }
      i := i + 1;
    }
    lnum := 0;
  }

  /**
   * MifToVector's loop body on one line: false for a bad line, leaving the
   * vector as it was; otherwise grow the vector if the address is beyond its
   * end, then store the value there.
   */
  method StoreLine(line: string, vec: WordVector) returns (ok: bool)
    modifies vec
    ensures ok <==> DecodeLine(line).Some?
    ensures !ok ==> vec.cells == old(vec.cells)
    ensures ok ==> vec.cells == Store(old(vec.cells), DecodeLine(line).value)
  {
    var fields := Split(line, '\t');
    if |fields| != 2 {
      return false;
    }
    var addr := ToUShort(fields[0]);
    if addr.None? {
      return false;
    }
    var val := ToULong(fields[1]);
    if val.None? {
      return false;
    }
    var currentmempos := addr.value;
    ghost var c := Cell(currentmempos, val.value % 0x1_0000_0000);
    assert DecodeLine(line) == Some(c);
    if |vec.cells| < currentmempos + 1 {
      vec.Resize(currentmempos + 1);
    }
    vec.Put(currentmempos, val.value % 0x1_0000_0000);
    ok := true;
  }

  /** The loop returns 0 exactly when every verdict from line i on is an accepted cell. */
  lemma {:induction false} DecodeFromSucceedsIff(verdicts: seq<Option<Cell>>, i: nat, cells: seq<u32>)
    requires i <= |verdicts|
    ensures DecodeFrom(verdicts, i, cells).lnum == 0 <==> forall k :: i <= k < |verdicts| ==> verdicts[k].Some?
    decreases |verdicts| - i
  {
    if i < |verdicts| && verdicts[i].Some? {
      DecodeFromSucceedsIff(verdicts, i + 1, Store(cells, verdicts[i].value));
    }
  }

  /** The index of the first bad verdict from i on, or |verdicts| when there is none. */
  function FirstBad(verdicts: seq<Option<Cell>>, i: nat): (n: nat)
    requires i <= |verdicts|
    ensures i <= n <= |verdicts|
    ensures n < |verdicts| ==> verdicts[n].None?
    ensures forall k :: i <= k < n ==> verdicts[k].Some?
    decreases |verdicts| - i
  {
    if i == |verdicts| || verdicts[i].None? then i else FirstBad(verdicts, i + 1)
  }

  /** Otherwise it returns the 1-based number of the first bad line. */
  lemma {:induction false} DecodeFromStopsAtFirstBad(verdicts: seq<Option<Cell>>, i: nat, cells: seq<u32>)
    requires i <= |verdicts|
    ensures DecodeFrom(verdicts, i, cells).lnum ==
      if FirstBad(verdicts, i) == |verdicts| then 0 else FirstBad(verdicts, i) + 1
    decreases |verdicts| - i
  {
    if i < |verdicts| && verdicts[i].Some? {
      DecodeFromStopsAtFirstBad(verdicts, i + 1, Store(cells, verdicts[i].value));
    }
  }

  /** MifToVector returns 0 exactly when every line is accepted; otherwise the number of the first bad line. */
  lemma DecodeResult(lines: seq<string>, cells: seq<u32>)
    ensures Decode(lines, cells).lnum == 0 <==> forall k :: 0 <= k < |lines| ==> DecodeLine(UpToNul(lines[k])).Some?
    ensures var n := Decode(lines, cells).lnum;
      n != 0 ==>
        n <= |lines| && DecodeLine(UpToNul(lines[n - 1])).None?
        && forall k :: 0 <= k < n - 1 ==> DecodeLine(UpToNul(lines[k])).Some?
  {
    DecodeFromSucceedsIff(DecodeLines(lines), 0, cells);
    DecodeFromStopsAtFirstBad(DecodeLines(lines), 0, cells);
  }

  /** A NUL ends the QString early: what follows it on the line is not seen. */
  lemma NulCutsLine()
    ensures DecodeLines(["1\t1\0\n"]) == [Some(Cell(1, 1))]
  {
    assert UpToNul("1\t1\0\n") == "1\t1";
    SplitJoin(["1", "1"], '\t');
    assert Join(["1", "1"], '\t') == "1\t1";
    ParseOne();
    DecodeFields("1\t1", "1", "1", 1, 1);
  }

  /** The digit "1" parses as 1. */
  lemma ParseOne()
    ensures ToULong("1") == Some(1) && ToUShort("1") == Some(1)
  {
    ParsePadded(1, 1, []);
    assert PadBinary(1, 1) + [] == "1";
  }

  /** The vector never shrinks. */
  lemma {:induction false} DecodeNeverShrinks(verdicts: seq<Option<Cell>>, i: nat, cells: seq<u32>)
    requires i <= |verdicts|
    ensures |DecodeFrom(verdicts, i, cells).cells| >= |cells|
    decreases |verdicts| - i
  {
    if i < |verdicts| && verdicts[i].Some? {
      DecodeNeverShrinks(verdicts, i + 1, Store(cells, verdicts[i].value));
    }
  }

  /** A blank line (QChar::isSpace only, one tab included) is a bad line. */
  lemma BlankLineRejected(line: string)
    requires AllSpace(line)
    ensures DecodeLine(line).None?
  {
    var fields := Split(line, '\t');
    if |fields| == 2 {
      JoinSplit(line, '\t');
      assert line == fields[0] + ['\t'] + fields[1];
      assert AllSpace(fields[0]) by {
        forall k | 0 <= k < |fields[0]| ensures IsSpace(fields[0][k]) {
          assert fields[0][k] == line[k];
        }
      }
      BlankIffAllSpace(fields[0]);
    }
  }

  /**
   * The value a run of verdicts leaves at address `a`: that of the last
   * accepted cell for `a`, None when no cell names it.
   */
  function LastValue(verdicts: seq<Option<Cell>>, a: nat): Option<u32> {
    if verdicts == [] then None
    else
      match LastValue(verdicts[1..], a)
      case Some(v) => Some(v)
      case None =>
        match verdicts[0]
        case Some(c) => if c.addr == a then Some(c.value) else None
        case None => None
  }

  /** One past the largest address an accepted cell names, 0 when none does. */
  function Reach(verdicts: seq<Option<Cell>>): nat {
    if verdicts == [] then 0
    else
      var rest := Reach(verdicts[1..]);
      match verdicts[0]
      case Some(c) => if rest < c.addr + 1 then c.addr + 1 else rest
      case None => rest
  }

  /**
   * After a successful decode the vector reaches as far as its old length or
   * one past the largest address named, whichever is further, and every cell
   * holds the value of the last line naming its address; a cell no line names
   * keeps its old value, or is 0 if growth created it.
   */
  lemma {:induction false} DecodeContents(verdicts: seq<Option<Cell>>, i: nat, cells: seq<u32>, a: nat)
    requires i <= |verdicts|
    requires DecodeFrom(verdicts, i, cells).lnum == 0
    ensures var r := DecodeFrom(verdicts, i, cells).cells;
      |r| == if |cells| < Reach(verdicts[i..]) then Reach(verdicts[i..]) else |cells|
    ensures var r := DecodeFrom(verdicts, i, cells).cells;
      a < |r| ==> r[a] == match LastValue(verdicts[i..], a)
                         case Some(v) => v
                         case None => if a < |cells| then cells[a] else 0
    decreases |verdicts| - i
  {
    if i == |verdicts| {
      assert verdicts[i..] == [];
    } else {
      var c := verdicts[i].value;
      var next := Store(cells, c);
      DecodeContents(verdicts, i + 1, next, a);
      assert verdicts[i..][1..] == verdicts[i + 1..];
      assert verdicts[i..][0] == verdicts[i];
    }
  }

  // ---------------------------------------------------------------------------
  // Encoding: VectorToMif
  // ---------------------------------------------------------------------------

  /** Line i of a written image: the address padded to 13 and the value to 20 binary digits. */
  function EncodeLine(i: nat, v: u32): string {
    PadBinary(i, 13) + "\t" + PadBinary(v, 20) + "\n"
  }

  /** Every line VectorToMif writes for `cells`, in index order. */
  function Encode(cells: seq<u32>): (lines: seq<string>)
    ensures |lines| == |cells|
  {
    seq(|cells|, k requires 0 <= k < |cells| => EncodeLine(k, cells[k]))
  }

  /**
   * VectorToMif(f, vec): hands the lines of `vec` to the file one at a time.
   * `written(k)` is what the k-th write returns. The method returns 0 once all
   * lines are written, or k + 1 as soon as write k returns 0 (a failing write
   * that returns -1 goes unnoticed); `sent` holds the lines handed over.
   */
  method VectorToMif(vec: seq<u32>, written: nat -> int) returns (ret: int, sent: seq<string>)
    ensures ret == 0 ==> sent == Encode(vec) && forall k :: 0 <= k < |vec| ==> written(k) != 0
    ensures ret != 0 ==>
      1 <= ret <= |vec| && sent == Encode(vec)[..ret] && written(ret - 1) == 0
      && forall k :: 0 <= k < ret - 1 ==> written(k) != 0
  {
    sent := [];
    var i := 0;
    while i < |vec|
      invariant 0 <= i <= |vec|
      invariant sent == Encode(vec)[..i]
      invariant forall k :: 0 <= k < i ==> written(k) != 0
    {
      var str := PadBinary(i, 13) + "\t" + PadBinary(vec[i], 20) + "\n";
      sent := sent + [str];
      assert Encode(vec)[..i + 1] == Encode(vec)[..i] + [Encode(vec)[i]];
      if written(i) == 0 {
        return i + 1, sent;
      }
      i := i + 1;
    }
    assert Encode(vec)[..i] == Encode(vec);
    return 0, sent;
  }

  /** An encoded line is one chunk of a file: it ends with its only newline. */
  lemma EncodeLineIsChunk(i: nat, v: u32)
    ensures IsLineChunk(EncodeLine(i, v)) && EncodeLine(i, v)[|EncodeLine(i, v)| - 1] == '\n'
  {
    var line := EncodeLine(i, v);
    var n := |line|;
    forall k | 0 <= k < n - 1 ensures line[k] != '\n' {
      if k < |PadBinary(i, 13)| {
        assert line[k] == PadBinary(i, 13)[k];
        assert IsBinaryDigit(PadBinary(i, 13)[k]);
      } else if k > |PadBinary(i, 13)| {
        assert line[k] == PadBinary(v, 20)[k - |PadBinary(i, 13)| - 1];
        assert IsBinaryDigit(PadBinary(v, 20)[k - |PadBinary(i, 13)| - 1]);
      }
    }
  }

  /** An encoded line holds no NUL, so it becomes a QString whole. */
  lemma EncodeLineNoNul(i: nat, v: u32)
    ensures '\0' !in EncodeLine(i, v)
  {
    var line := EncodeLine(i, v);
    forall k | 0 <= k < |line| ensures line[k] != '\0' {
      if k < |PadBinary(i, 13)| {
        assert line[k] == PadBinary(i, 13)[k];
        assert IsBinaryDigit(PadBinary(i, 13)[k]);
      } else if |PadBinary(i, 13)| < k < |line| - 1 {
        assert line[k] == PadBinary(v, 20)[k - |PadBinary(i, 13)| - 1];
        assert IsBinaryDigit(PadBinary(v, 20)[k - |PadBinary(i, 13)| - 1]);
      }
    }
  }

  /** Padded digits survive QString::toULong, with or without trailing space. */
  lemma ParsePadded(n: nat, width: nat, tail: string)
    requires n < ULongLimit && AllSpace(tail)
    ensures ToULong(PadBinary(n, width) + tail) == Some(n)
  {
    var d := PadBinary(n, width);
    assert d[|d| - 1] == Binary(n)[|Binary(n)| - 1];
    assert IsBinaryDigit(d[0]) && IsBinaryDigit(d[|d| - 1]);
    TrimmedKeeps(d, tail);
    PadBinaryValue(n, width);
  }

  /** A written line splits on its one tab into the address digits and the value digits with the newline. */
  lemma EncodeLineFields(i: nat, v: u32)
    ensures Split(EncodeLine(i, v), '\t') == [PadBinary(i, 13), PadBinary(v, 20) + "\n"]
  {
    var a := PadBinary(i, 13);
    var b := PadBinary(v, 20) + "\n";
    assert '\t' !in a by {
      forall k | 0 <= k < |a| ensures a[k] != '\t' {
        assert IsBinaryDigit(a[k]);
      }
    }
    assert '\t' !in b by {
      forall k | 0 <= k < |b| ensures b[k] != '\t' {
        if k < |b| - 1 {
          assert IsBinaryDigit(PadBinary(v, 20)[k]);
        }
      }
    }
    SplitJoin([a, b], '\t');
    assert Join([a, b], '\t') == EncodeLine(i, v);
  }

  /** A written line with an address that fits in 16 bits reads back as the same cell. */
  lemma EncodeLineDecodes(i: nat, v: u32)
    requires i <= 0xFFFF
    ensures DecodeLine(EncodeLine(i, v)) == Some(Cell(i, v))
  {
    var a := PadBinary(i, 13);
    EncodeLineFields(i, v);
    assert a + [] == a;
    ParsePadded(i, 13, []);
    ParsePadded(v, 20, "\n");
    DecodeFields(EncodeLine(i, v), a, PadBinary(v, 20) + "\n", i, v);
  }

  /** A line whose two tab-separated fields parse, the second to a 32-bit value, is accepted with those numbers. */
  lemma DecodeFields(line: string, a: string, b: string, i: nat, v: u32)
    requires Split(line, '\t') == [a, b]
    requires ToUShort(a) == Some(i) && ToULong(b) == Some(v as nat)
    ensures DecodeLine(line) == Some(Cell(i, v))
  {
    TruncateKeeps(v);
  }

  /** Truncation to 32 bits keeps a value that already fits. */
  lemma TruncateKeeps(v: u32)
    ensures (v as nat) % 0x1_0000_0000 == v
  {
  }

  /** Reading the lines back from line k on completes the vector once cells[..k] is in place. */
  lemma {:induction false} DecodeEncodedFrom(cells: seq<u32>, k: nat)
    requires k <= |cells| <= 0x10000
    ensures DecodeFrom(DecodeLines(Encode(cells)), k, cells[..k]) == Decoded(0, cells)
    decreases |cells| - k
  {
    var verdicts := DecodeLines(Encode(cells));
    if k == |cells| {
      assert cells[..k] == cells;
    } else {
      EncodeLineDecodes(k, cells[k]);
      EncodeLineNoNul(k, cells[k]);
      UpToNulKeeps(EncodeLine(k, cells[k]));
      assert verdicts[k] == Some(Cell(k, cells[k]));
      assert Store(cells[..k], Cell(k, cells[k])) == cells[..k + 1];
      DecodeEncodedFrom(cells, k + 1);
    }
  }

  /**
   * Round trip: MifToVector on the lines VectorToMif writes for a vector of at
   * most 65536 cells, starting from an empty vector, returns 0 and rebuilds it.
   */
  lemma RoundTrip(cells: seq<u32>)
    requires |cells| <= 0x10000
    ensures Decode(Encode(cells), []) == Decoded(0, cells)
  {
    DecodeEncodedFrom(cells, 0);
  }

  /** The same through the file: the written lines are exactly what readLine hands back. */
  lemma FileRoundTrip(cells: seq<u32>)
    requires |cells| <= 0x10000
    ensures Decode(ReadLines(Concat(Encode(cells))), []) == Decoded(0, cells)
  {
    var lines := Encode(cells);
    forall k | 0 <= k < |lines| ensures IsLineChunk(lines[k]) {
      EncodeLineIsChunk(k, cells[k]);
    }
    ReadLinesConcat(lines);
    RoundTrip(cells);
  }

  /** Address 65536 does not fit in toUShort: the line VectorToMif writes for it is rejected. */
  lemma WideAddressRejected(v: u32)
    ensures DecodeLine(EncodeLine(0x10000, v)).None?
  {
    EncodeLineFields(0x10000, v);
    assert PadBinary(0x10000, 13) + [] == PadBinary(0x10000, 13);
    ParsePadded(0x10000, 13, []);
  }
}
