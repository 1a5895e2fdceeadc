/**
 * The trace-record serialiser: `FileIO<writeOnly, true>::Print` (binary) and
 * `FileIO<writeOnly, false>::Print` (text), over the record types of
 * `AbstractFileIO`.
 *
 * A `FILE *` stream is modelled as an object holding everything written to it
 * so far; each `fwrite` or `fprintf` call appends to it.  Sizes follow the
 * LP64 little-endian ABI: `sizeof(RefType)` is 4, `sizeof(size_t)` and
 * pointers are 8, `sizeof(unsigned int)` is 4, `sizeof(bool)` and
 * `sizeof(char)` are 1.
 */
module TraceFileIO {
  import opened Wrappers
  import opened CInt

  type Byte = x: nat | x < 256
  type U32 = x: nat | x < 0x1_0000_0000
  type U64 = x: nat | x < 0x1_0000_0000_0000_0000

  const SizeOfRefType: nat := 4
  const SizeOfBool: nat := 1
  const SizeOfChar: nat := 1
  const SizeOfUnsigned: nat := 4
  const SizeOfSizeT: nat := 8

  /** Length in bytes of every binary MemRef record. */
  const MemImageLength: nat := SizeOfRefType + SizeOfBool + SizeOfSizeT + SizeOfUnsigned + SizeOfSizeT

  // ---------------------------------------------------------------------
  // Record types

  /** The four kinds of trace record, in enum order. */
  datatype RefType = MemRef | CallRef | CallIndRef | RetRef

  /** The enumerator value of each kind: MemRef = 0, CallRef = 1, CallIndRef = 2, RetRef = 3. */
  function Code(t: RefType): (c: Int32)
    ensures 0 <= c < 4
  {
    match t
    case MemRef => 0
    case CallRef => 1
    case CallIndRef => 2
    case RetRef => 3
  }

  /** The kind an enum value stands for, or None for a value outside the four enumerators. */
  function KindOf(code: Int32): (r: Option<RefType>)
    ensures r.Some? <==> 0 <= code < 4
    ensures r.Some? ==> Code(r.value) == code
  {
    if code == 0 then Some(MemRef)
    else if code == 1 then Some(CallRef)
    else if code == 2 then Some(CallIndRef)
    else if code == 3 then Some(RetRef)
    else None
  }

  lemma KindOfCode(t: RefType)
    ensures KindOf(Code(t)) == Some(t)
  {
  }

  /** MemRef_t: one memory access. */
  datatype MemRecord = MemRecord(isWrite: bool, size: U32, instr: U64, data: U64, instrSym: seq<Byte>)

  /** CallRetRef_t: one call, indirect call or return. */
  datatype CallRetRecord = CallRetRecord(instr: U64, target: U64, instrSym: seq<Byte>, targetSym: seq<Byte>)

  /**
   * The record that Print's `const void *ref` points at.  Print casts it to
   * MemRef_t exactly when the tag is MemRef and to CallRetRef_t otherwise.
   */
  datatype Record = Mem(mem: MemRecord) | CallRet(call: CallRetRecord)

  /** The shape of record Print expects behind `ref` for a given tag. */
  predicate Matches(refType: Int32, ref: Record)
  {
    (refType == Code(MemRef)) == ref.Mem?
  }

  // ---------------------------------------------------------------------
  // Bytes of scalars and strings

  /** 256^n, the number of values an n-byte unsigned integer holds. */
  function Pow256(n: nat): (p: nat)
    ensures p >= 1
  {
    if n == 0 then 1 else 256 * Pow256(n - 1)
  }

  /** The n bytes of `x` in memory, least significant first (the object representation fwrite copies). */
  function LE(x: nat, n: nat): (r: seq<Byte>)
    ensures |r| == n
  {
    if n == 0 then [] else [x % 256] + LE(x / 256, n - 1)
  }

  /** Reads a little-endian unsigned integer back from its bytes. */
  function FromLE(s: seq<Byte>): (x: nat)
    ensures x < Pow256(|s|)
  {
    if |s| == 0 then 0 else s[0] + 256 * FromLE(s[1..])
  }

  /** Reading the bytes of an n-byte value gives the value back. */
  lemma {:induction false} FromLEOfLE(x: nat, n: nat)
    requires x < Pow256(n)
    ensures FromLE(LE(x, n)) == x
  {
    if n > 0 {
      FromLEOfLE(x / 256, n - 1);
      assert LE(x, n)[1..] == LE(x / 256, n - 1);
    }
  }

  /** Every byte string is the representation of the value it reads as. */
  lemma {:induction false} LEOfFromLE(s: seq<Byte>)
    ensures LE(FromLE(s), |s|) == s
  {
    if |s| > 0 {
      LEOfFromLE(s[1..]);
      var x := FromLE(s);
      assert x % 256 == s[0] && x / 256 == FromLE(s[1..]);
    }
  }

  /** Distinct values of an n-byte type have distinct representations. */
  lemma LEInjective(x: nat, y: nat, n: nat)
    requires x < Pow256(n) && y < Pow256(n)
    requires LE(x, n) == LE(y, n)
    ensures x == y
  {
    FromLEOfLE(x, n);
    FromLEOfLE(y, n);
  }

  /** Every 8-byte value is below 256^8, so size_t and pointer fields fit their 8 bytes. */
  lemma U64Fits(x: U64)
    ensures x < Pow256(SizeOfSizeT)
  {
    assert Pow256(8) == 0x1_0000_0000_0000_0000;
  }

  lemma U32Fits(x: U32)
    ensures x < Pow256(SizeOfUnsigned)
  {
    assert Pow256(4) == 0x1_0000_0000;
  }

  /**
   * The bytes `strlen(s.c_str())` counts: `s` up to, not including, its first
   * NUL byte (all of `s` when it holds none).
   */
  function CString(s: seq<Byte>): (r: seq<Byte>)
    ensures |r| <= |s| && r == s[..|r|]
    ensures 0 !in r
    ensures |r| < |s| ==> s[|r|] == 0
  {
    if |s| == 0 || s[0] == 0 then [] else [s[0]] + CString(s[1..])
  }

  /** A string without NUL bytes is written in full. */
  lemma CStringNoNul(s: seq<Byte>)
    requires 0 !in s
    ensures CString(s) == s
  {
  }

  // ---------------------------------------------------------------------
  // Binary format

  /** The tag byte of a call-type record: the low byte of the enum, or nothing for an unknown value. */
  function CallTag(refType: Int32): (r: seq<Byte>)
    ensures |r| <= 1
    ensures |r| == 1 <==> refType in {Code(CallRef), Code(CallIndRef), Code(RetRef)}
    ensures |r| == 1 ==> r[0] == refType
  {
    if refType == Code(CallRef) then LE(Code(CallRef), SizeOfChar)
    else if refType == Code(CallIndRef) then LE(Code(CallIndRef), SizeOfChar)
    else if refType == Code(RetRef) then LE(Code(RetRef), SizeOfChar)
    else []
  }

  /** The bytes binary Print writes for a MemRef record. */
  function MemImage(m: MemRecord): seq<Byte>
  {
    LE(Code(MemRef), SizeOfRefType)
    + LE(if m.isWrite then 1 else 0, SizeOfBool)
    + LE(m.instr, SizeOfSizeT)
    + LE(m.size, SizeOfUnsigned)
    + LE(m.data, SizeOfSizeT)
  }

  /** The bytes binary Print writes for a record cast to CallRetRef_t. */
  function CallImage(refType: Int32, c: CallRetRecord): seq<Byte>
  {
    CallTag(refType)
    + LE(c.instr, SizeOfSizeT)
    + LE(c.target, SizeOfSizeT)
    + CString(c.instrSym)
    + CString(c.targetSym)
  }

  /** Everything binary Print appends to the stream for one record. */
  function BinaryImage(refType: Int32, ref: Record): seq<Byte>
    requires Matches(refType, ref)
  {
    if refType == Code(MemRef) then MemImage(ref.mem) else CallImage(refType, ref.call)
  }

  /**
   * A MemRef record is 25 bytes: the tag in all four bytes of the enum, one
   * byte 1 for a write and 0 for a read, then instr (8 bytes), size (4 bytes)
   * and data (8 bytes).  The symbol is not written.
   */
  lemma MemImageLayout(m: MemRecord)
    ensures var img := BinaryImage(Code(MemRef), Mem(m));
      && |img| == MemImageLength == 25
      && img[0..4] == [0, 0, 0, 0]
      && img[4] == (if m.isWrite then 1 else 0)
      && FromLE(img[5..13]) == m.instr
      && FromLE(img[13..17]) == m.size
      && FromLE(img[17..25]) == m.data
  {
    var img := BinaryImage(Code(MemRef), Mem(m));
    var tag := LE(Code(MemRef), SizeOfRefType);
    var rw := LE(if m.isWrite then 1 else 0, SizeOfBool);
    var i, sz, d := LE(m.instr, SizeOfSizeT), LE(m.size, SizeOfUnsigned), LE(m.data, SizeOfSizeT);
    assert img == (tag + rw) + (i + (sz + d));
    assert img[5..] == i + (sz + d);
    assert img[5..13] == i;
    assert img[13..] == sz + d;
    assert img[13..17] == sz;
    assert img[17..] == d;
    assert img[17..25] == d;
    U64Fits(m.instr);
    U32Fits(m.size);
    U64Fits(m.data);
    FromLEOfLE(m.instr, SizeOfSizeT);
    FromLEOfLE(m.size, SizeOfUnsigned);
    FromLEOfLE(m.data, SizeOfSizeT);
  }

  /** Two MemRef records are written identically exactly when they differ at most in their symbol. */
  lemma MemImageEqual(m1: MemRecord, m2: MemRecord)
    ensures BinaryImage(Code(MemRef), Mem(m1)) == BinaryImage(Code(MemRef), Mem(m2))
        <==> m1.(instrSym := []) == m2.(instrSym := [])
  {
    if BinaryImage(Code(MemRef), Mem(m1)) == BinaryImage(Code(MemRef), Mem(m2)) {
      MemImageLayout(m1);
      MemImageLayout(m2);
    }
  }

  /**
   * A call-type record with a known tag is one tag byte holding the enum
   * value, instr and target (8 bytes each), then the bytes of both symbols
   * with no length and no terminator.
   */
  lemma CallImageLayout(refType: Int32, c: CallRetRecord)
    requires refType in {Code(CallRef), Code(CallIndRef), Code(RetRef)}
    ensures var img := BinaryImage(refType, CallRet(c));
      && |img| == 1 + 2 * SizeOfSizeT + |CString(c.instrSym)| + |CString(c.targetSym)|
      && img[0] == refType
      && FromLE(img[1..9]) == c.instr
      && FromLE(img[9..17]) == c.target
      && img[17..] == CString(c.instrSym) + CString(c.targetSym)
  {
    var img := BinaryImage(refType, CallRet(c));
    var i, t := LE(c.instr, SizeOfSizeT), LE(c.target, SizeOfSizeT);
    assert img == CallTag(refType) + i + t + (CString(c.instrSym) + CString(c.targetSym));
    assert img[1..9] == i;
    assert img[9..17] == t;
    U64Fits(c.instr);
    U64Fits(c.target);
    FromLEOfLE(c.instr, SizeOfSizeT);
    FromLEOfLE(c.target, SizeOfSizeT);
  }

  /**
   * With an enum value outside the four enumerators, binary Print writes no
   * tag at all but still writes instr, target and both symbols.
   */
  lemma UnknownImageLayout(refType: Int32, c: CallRetRecord)
    requires KindOf(refType).None?
    ensures var img := BinaryImage(refType, CallRet(c));
      && |img| == 2 * SizeOfSizeT + |CString(c.instrSym)| + |CString(c.targetSym)|
      && FromLE(img[0..8]) == c.instr
      && FromLE(img[8..16]) == c.target
      && img[16..] == CString(c.instrSym) + CString(c.targetSym)
  {
    var img := BinaryImage(refType, CallRet(c));
    var i, t := LE(c.instr, SizeOfSizeT), LE(c.target, SizeOfSizeT);
    assert img == i + t + (CString(c.instrSym) + CString(c.targetSym));
    assert img[0..8] == i;
    assert img[8..16] == t;
    U64Fits(c.instr);
    U64Fits(c.target);
    FromLEOfLE(c.instr, SizeOfSizeT);
    FromLEOfLE(c.target, SizeOfSizeT);
  }

  /**
   * Two call-type records with the same known tag are written identically
   * exactly when instr and target agree and the two symbols, run together,
   * give the same bytes: the boundary between the symbols is lost.
   */
  lemma CallImageEqual(refType: Int32, c1: CallRetRecord, c2: CallRetRecord)
    requires refType in {Code(CallRef), Code(CallIndRef), Code(RetRef)}
    ensures BinaryImage(refType, CallRet(c1)) == BinaryImage(refType, CallRet(c2))
        <==> (c1.instr == c2.instr && c1.target == c2.target
              && CString(c1.instrSym) + CString(c1.targetSym) == CString(c2.instrSym) + CString(c2.targetSym))
  {
    CallImageLayout(refType, c1);
    CallImageLayout(refType, c2);
    var img1, img2 := BinaryImage(refType, CallRet(c1)), BinaryImage(refType, CallRet(c2));
    if c1.instr == c2.instr && c1.target == c2.target
      && CString(c1.instrSym) + CString(c1.targetSym) == CString(c2.instrSym) + CString(c2.targetSym)
    {
      assert img1 == img2;
    }
  }

  /** The call record for the symbols "ab" and "c" is written exactly like the one for "a" and "bc". */
  lemma CallImageNotInjective()
    ensures var a, b, c := 97, 98, 99;
      var c1 := CallRetRecord(0x1000, 0x2000, [a, b], [c]);
      var c2 := CallRetRecord(0x1000, 0x2000, [a], [b, c]);
      c1 != c2 && BinaryImage(Code(CallRef), CallRet(c1)) == BinaryImage(Code(CallRef), CallRet(c2))
  {
    var c1 := CallRetRecord(0x1000, 0x2000, [97, 98], [99]);
    var c2 := CallRetRecord(0x1000, 0x2000, [97], [98, 99]);
    CStringNoNul(c1.instrSym);
    CStringNoNul(c1.targetSym);
    CStringNoNul(c2.instrSym);
    CStringNoNul(c2.targetSym);
    CallImageEqual(Code(CallRef), c1, c2);
  }

  /** The tag of a MemRef record is four bytes wide, that of a call-type record one byte. */
  lemma TagWidths(m: MemRecord, refType: Int32, c: CallRetRecord)
    requires refType in {Code(CallRef), Code(CallIndRef), Code(RetRef)}
    ensures |BinaryImage(Code(MemRef), Mem(m))| - (SizeOfBool + 2 * SizeOfSizeT + SizeOfUnsigned) == 4
    ensures |BinaryImage(refType, CallRet(c))| - (2 * SizeOfSizeT + |CString(c.instrSym)| + |CString(c.targetSym)|) == 1
  {
    MemImageLayout(m);
    CallImageLayout(refType, c);
  }

  /** A `FILE *` opened in binary mode: the bytes written to it so far. */
  class BinaryStream {
    var bytes: seq<Byte>

    constructor ()
      ensures bytes == []
    {
      bytes := [];
    }

    /** `fwrite(p, |data|, 1, this)` where `data` are the bytes at `p`. */
    method Write(data: seq<Byte>)
      modifies this
      ensures bytes == old(bytes) + data
    {
      bytes := bytes + data;
    }
  }

  /** `FileIO<writeOnly, true>::Print`: appends the binary image of one record to `f`. */
  method PrintBinary(f: BinaryStream, refType: Int32, ref: Record)
    requires Matches(refType, ref)
    modifies f
    ensures f.bytes == old(f.bytes) + BinaryImage(refType, ref)
  {
    if refType == Code(MemRef) {
      var memRef := ref.mem;
      f.Write(LE(refType, SizeOfRefType));
      if memRef.isWrite {
        f.Write(LE(1, SizeOfBool));
      } else {
        f.Write(LE(0, SizeOfBool));
      }
      f.Write(LE(memRef.instr, SizeOfSizeT));
      f.Write(LE(memRef.size, SizeOfUnsigned));
      f.Write(LE(memRef.data, SizeOfSizeT));
      AppendFive(old(f.bytes), LE(Code(MemRef), SizeOfRefType), LE(if memRef.isWrite then 1 else 0, SizeOfBool),
        LE(memRef.instr, SizeOfSizeT), LE(memRef.size, SizeOfUnsigned), LE(memRef.data, SizeOfSizeT));
    } else {
      var callRef := ref.call;
      if refType == Code(CallRef) {
        f.Write(LE(Code(CallRef), SizeOfChar));
      } else if refType == Code(CallIndRef) {
        f.Write(LE(Code(CallIndRef), SizeOfChar));
      } else if refType == Code(RetRef) {
        f.Write(LE(Code(RetRef), SizeOfChar));
      }
      f.Write(LE(callRef.instr, SizeOfSizeT));
      f.Write(LE(callRef.target, SizeOfSizeT));
      f.Write(CString(callRef.instrSym));
      f.Write(CString(callRef.targetSym));
      AppendFive(old(f.bytes), CallTag(refType), LE(callRef.instr, SizeOfSizeT), LE(callRef.target, SizeOfSizeT),
        CString(callRef.instrSym), CString(callRef.targetSym));
    }
  }

  /** Five writes in a row append the concatenation of what they write. */
  lemma AppendFive(s: seq<Byte>, a: seq<Byte>, b: seq<Byte>, c: seq<Byte>, d: seq<Byte>, e: seq<Byte>)
    ensures s + a + b + c + d + e == s + (a + b + c + d + e)
  {
  }

  // ---------------------------------------------------------------------
  // Text format

  /** The value `%d` prints for an `unsigned int`: the same 32 bits read as a signed int. */
  function SignedView(u: U32): (r: Int32)
    ensures (r - u) % 0x1_0000_0000 == 0
    ensures u <= IntMax ==> r == u
    ensures u > IntMax ==> r < 0
  {
    Wrap32(u)
  }

  /**
   * One line of text output, kept abstract: the fixed label and the values
   * the conversions print (`%p` as the address, `%s` as the bytes of the
   * C string, `%d` as the signed value).
   */
  datatype Line =
    | MemLine(title: string, instr: U64, sym: seq<Byte>, size: int, data: U64)  // "<label> @ %p %s of size %d to %p"
    | CallLine(title: string, instr: U64, sym: seq<Byte>)                        // "<label> @ %p %s"
    | ToLine(target: U64, sym: seq<Byte>)                                        // "\t to %p %s"

  /** The label of the first line of a call-type record, for the three call-type tags. */
  function CallLabel(refType: Int32): Option<string>
  {
    if refType == Code(CallRef) then Some("CALL")
    else if refType == Code(CallIndRef) then Some("CALL IND")
    else if refType == Code(RetRef) then Some("RET")
    else None
  }

  /** Everything text Print appends to the stream for one record. */
  function TextLines(refType: Int32, ref: Record): seq<Line>
    requires Matches(refType, ref)
  {
    if refType == Code(MemRef) then
      var m := ref.mem;
      var title := if m.isWrite then "MEM WRITE" else "MEM READ";
      [MemLine(title, m.instr, CString(m.instrSym), SignedView(m.size), m.data)]
    else
      var c := ref.call;
      match CallLabel(refType)
      case Some(title) => [CallLine(title, c.instr, CString(c.instrSym)), ToLine(c.target, CString(c.targetSym))]
      case None => []
  }

  /**
   * A MemRef record prints as one line, labelled "MEM WRITE" exactly for a
   * write and "MEM READ" otherwise, with the same fields either way.
   */
  lemma TextMemLine(m: MemRecord)
    ensures var lines := TextLines(Code(MemRef), Mem(m));
      && |lines| == 1 && lines[0].MemLine?
      && (lines[0].title == "MEM WRITE" <==> m.isWrite)
      && (lines[0].title == "MEM READ" <==> !m.isWrite)
      && lines[0].instr == m.instr && lines[0].sym == CString(m.instrSym)
      && lines[0].size == SignedView(m.size) && lines[0].data == m.data
    ensures var w := TextLines(Code(MemRef), Mem(m.(isWrite := true)))[0];
      var r := TextLines(Code(MemRef), Mem(m.(isWrite := false)))[0];
      w.MemLine? && r.MemLine? && w == MemLine("MEM WRITE", r.instr, r.sym, r.size, r.data)
  {
    assert "MEM WRITE" != "MEM READ" by {
      assert "MEM WRITE"[4] != "MEM READ"[4];
    }
  }

  /**
   * A call-type record with a known tag prints as two lines: the labelled
   * line with instr and its symbol, then the "to" line with target and its symbol.
   */
  lemma TextCallLines(refType: Int32, c: CallRetRecord)
    requires refType in {Code(CallRef), Code(CallIndRef), Code(RetRef)}
    ensures var lines := TextLines(refType, CallRet(c));
      && |lines| == 2
      && lines[0] == CallLine(CallLabel(refType).value, c.instr, CString(c.instrSym))
      && lines[1] == ToLine(c.target, CString(c.targetSym))
    ensures CallLabel(refType) == Some(if refType == Code(CallRef) then "CALL"
                                       else if refType == Code(CallIndRef) then "CALL IND"
                                       else "RET")
  {
  }

  /**
   * For an enum value outside the four enumerators text Print writes nothing,
   * while binary Print still writes a (tagless) record.
   */
  lemma UnknownRefType(refType: Int32, c: CallRetRecord)
    requires KindOf(refType).None?
    ensures TextLines(refType, CallRet(c)) == []
    ensures |BinaryImage(refType, CallRet(c))| >= 2 * SizeOfSizeT
  {
    UnknownImageLayout(refType, c);
  }

  /** A `FILE *` opened in text mode: the lines printed to it so far. */
  class TextStream {
    var lines: seq<Line>

    constructor ()
      ensures lines == []
    {
      lines := [];
    }

    /** One `fprintf(this, ...)` call printing one line. */
    method Printf(line: Line)
      modifies this
      ensures lines == old(lines) + [line]
    {
      lines := lines + [line];
    }
  }

  /** `FileIO<writeOnly, false>::Print`: appends the text lines of one record to `f`. */
  method PrintText(f: TextStream, refType: Int32, ref: Record)
    requires Matches(refType, ref)
    modifies f
    ensures f.lines == old(f.lines) + TextLines(refType, ref)
  {
    if refType == Code(MemRef) {
      var memRef := ref.mem;
      if memRef.isWrite {
        f.Printf(MemLine("MEM WRITE", memRef.instr, CString(memRef.instrSym), SignedView(memRef.size), memRef.data));
      } else {
        f.Printf(MemLine("MEM READ", memRef.instr, CString(memRef.instrSym), SignedView(memRef.size), memRef.data));
      }
    } else {
      var callRef := ref.call;
      if refType == Code(CallRef) {
        f.Printf(CallLine("CALL", callRef.instr, CString(callRef.instrSym)));
        f.Printf(ToLine(callRef.target, CString(callRef.targetSym)));
      } else if refType == Code(CallIndRef) {
        f.Printf(CallLine("CALL IND", callRef.instr, CString(callRef.instrSym)));
        f.Printf(ToLine(callRef.target, CString(callRef.targetSym)));
      } else if refType == Code(RetRef) {
        f.Printf(CallLine("RET", callRef.instr, CString(callRef.instrSym)));
        f.Printf(ToLine(callRef.target, CString(callRef.targetSym)));
      }
    }
  }
}
