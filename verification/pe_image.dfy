/** The Windows executable container of the native-code compiler (pe.go):
    the import table built before compilation and the minimal PE header
    written in front of the single section. Offsets in `imports` are
    section-relative: the table is the first thing in the section, whose
    RVA is `TextBase`. */
module PeImage {
  import opened Bytes
  import X86
  import opened LittleEndian

  const ImageBase: nat := 0x40_0000
  const TextBase: nat := 0x1000
  const ImportSize: nat := 100

  /** `dataBase`: global data starts right after the import table. */
  const DataBase: nat := ImageBase + TextBase + ImportSize

  /** The import table and the absolute addresses compilation uses: the
      IAT slots of `exit`, `scanf` and `printf` and the two format
      strings. */
  datatype Imports = Imports(table: seq<byte>, impExit: int, impScanf: int, impPrintf: int,
                             sFmtAddr: int, pFmtAddr: int)

  /** The string `s`, one byte per character, at offset `off` of `t`. */
  predicate StringAt(t: seq<byte>, off: int, s: string) {
    && 0 <= off && off + |s| <= |t|
    && forall i :: 0 <= i < |s| ==> t[off + i] as int == s[i] as int
  }

  /** A hint/name entry: a zero 16-bit hint, then the name and its NUL. */
  function HintName(name: string): string {
    "\0\0" + name + "\0"
  }

  /** The hint/name entry of `name` at `off`. */
  predicate HintNameAt(t: seq<byte>, off: int, name: string) {
    && 0 <= off && off + |name| + 3 <= |t|
    && t[off] == 0 && t[off + 1] == 0
    && StringAt(t, off + 2, name) && t[off + 2 + |name|] == 0
  }

  /** The entry as `createImports` copies it: one string with the hint's two
      zero bytes in front. */
  lemma HintNameOf(t: seq<byte>, off: int, name: string)
    requires StringAt(t, off, HintName(name))
    ensures HintNameAt(t, off, name)
  {
    var e := HintName(name);
    assert t[off] as int == e[0] as int && t[off + 1] as int == e[1] as int;
    assert t[off + 2 + |name|] as int == e[2 + |name|] as int;
    forall i | 0 <= i < |name| ensures t[off + 2 + i] as int == name[i] as int {
      assert t[off + (2 + i)] as int == e[2 + i] as int;
    }
  }

  /** The word at `off` is an RVA in the section, and the table offset it
      stands for. */
  function RvaTarget(t: seq<byte>, off: nat): int
    requires off + 4 <= |t|
  {
    U32At(t, off) - TextBase
  }

  /** The first half of `createImports`: the DLL name, the three hint/name
      entries and the two format strings copied into a zeroed 512-byte
      buffer. */
  function CopiedStrings(): (t: seq<byte>)
    ensures |t| == 512
  {
    var t0 := Zeros(512);
    var t1 := CopyAt(t0, 56, Ascii("msvcrt.dll\0"));
    var t2 := CopyAt(t1, 67, Ascii(HintName("exit")));
    var t3 := CopyAt(t2, 74, Ascii(HintName("scanf")));
    var t4 := CopyAt(t3, 82, Ascii(HintName("printf")));
    var t5 := CopyAt(t4, 91, Ascii("%d\0"));
    CopyAt(t5, 94, Ascii("%d\n\0"))
  }

  /** `createImports`: the strings copied, the buffer cut to `importSize`,
      then the descriptor's name and first-thunk RVAs and the three thunks
      written. */
  function CreateImports(): (r: Imports)
    ensures |r.table| == ImportSize
  {
    Imports(WriteRvas(CopiedStrings()[..ImportSize]), 0x40_0000 + 0x1000 + 40, 0x40_0000 + 0x1000 + 44, 0x40_0000 + 0x1000 + 48,
            0x40_0000 + 0x1000 + 91, 0x40_0000 + 0x1000 + 94)
  }

  /** A copy places its string. */
  lemma CopyPlaces(buf: seq<byte>, off: nat, s: string)
    requires IsByteText(s) && off + |s| <= |buf|
    ensures StringAt(CopyAt(buf, off, Ascii(s)), off, s)
  {
    var r := CopyAt(buf, off, Ascii(s));
    forall i | 0 <= i < |s| ensures r[off + i] as int == s[i] as int {
      assert r[off..off + |s|][i] == r[off + i];
    }
  }

  /** A copy elsewhere keeps a string. */
  lemma CopyKeeps(buf: seq<byte>, off: nat, src: seq<byte>, at: int, s: string)
    requires off <= |buf| && StringAt(buf, at, s)
    requires at + |s| <= off || off + |src| <= at
    ensures StringAt(CopyAt(buf, off, src), at, s)
  {
    var r := CopyAt(buf, off, src);
    forall i | 0 <= i < |s| ensures r[at + i] as int == s[i] as int {
      assert r[at + i] == buf[at + i];
    }
  }

  /** Writes before offset 56 keep every string of the table. */
  lemma WriteKeeps(buf: seq<byte>, off: nat, v: X86.Word, at: int, s: string)
    requires off + 4 <= at && StringAt(buf, at, s)
    ensures StringAt(WriteAt(buf, off, v), at, s)
  {
    var r := WriteAt(buf, off, v);
    forall i | 0 <= i < |s| ensures r[at + i] as int == s[i] as int {
      assert r[at + i] == buf[at + i];
    }
  }

  /** The strings of the table and where they lie. */
  predicate TableStrings(t: seq<byte>) {
    && StringAt(t, 56, "msvcrt.dll\0")
    && StringAt(t, 67, HintName("exit")) && StringAt(t, 74, HintName("scanf")) && StringAt(t, 82, HintName("printf"))
    && StringAt(t, 91, "%d\0") && StringAt(t, 94, "%d\n\0")
  }

  lemma {:induction false} CopiedStringsPlaced()
    ensures StringAt(CopiedStrings(), 56, "msvcrt.dll\0")
    ensures StringAt(CopiedStrings(), 67, HintName("exit"))
    ensures StringAt(CopiedStrings(), 74, HintName("scanf"))
    ensures StringAt(CopiedStrings(), 82, HintName("printf"))
    ensures StringAt(CopiedStrings(), 91, "%d\0")
    ensures StringAt(CopiedStrings(), 94, "%d\n\0")
  {
    var t0 := Zeros(512);
    var t1 := CopyAt(t0, 56, Ascii("msvcrt.dll\0"));
    var t2 := CopyAt(t1, 67, Ascii(HintName("exit")));
    var t3 := CopyAt(t2, 74, Ascii(HintName("scanf")));
    var t4 := CopyAt(t3, 82, Ascii(HintName("printf")));
    var t5 := CopyAt(t4, 91, Ascii("%d\0"));
    var t6 := CopyAt(t5, 94, Ascii("%d\n\0"));
    CopyPlaces(t0, 56, "msvcrt.dll\0");
    CopyKeeps(t1, 67, Ascii(HintName("exit")), 56, "msvcrt.dll\0");
    CopyKeeps(t2, 74, Ascii(HintName("scanf")), 56, "msvcrt.dll\0");
    CopyKeeps(t3, 82, Ascii(HintName("printf")), 56, "msvcrt.dll\0");
    CopyKeeps(t4, 91, Ascii("%d\0"), 56, "msvcrt.dll\0");
    CopyKeeps(t5, 94, Ascii("%d\n\0"), 56, "msvcrt.dll\0");
    CopyPlaces(t1, 67, HintName("exit"));
    CopyKeeps(t2, 74, Ascii(HintName("scanf")), 67, HintName("exit"));
    CopyKeeps(t3, 82, Ascii(HintName("printf")), 67, HintName("exit"));
    CopyKeeps(t4, 91, Ascii("%d\0"), 67, HintName("exit"));
    CopyKeeps(t5, 94, Ascii("%d\n\0"), 67, HintName("exit"));
    CopyPlaces(t2, 74, HintName("scanf"));
    CopyKeeps(t3, 82, Ascii(HintName("printf")), 74, HintName("scanf"));
    CopyKeeps(t4, 91, Ascii("%d\0"), 74, HintName("scanf"));
    CopyKeeps(t5, 94, Ascii("%d\n\0"), 74, HintName("scanf"));
    CopyPlaces(t3, 82, HintName("printf"));
    CopyKeeps(t4, 91, Ascii("%d\0"), 82, HintName("printf"));
    CopyKeeps(t5, 94, Ascii("%d\n\0"), 82, HintName("printf"));
    CopyPlaces(t4, 91, "%d\0");
    CopyKeeps(t5, 94, Ascii("%d\n\0"), 91, "%d\0");
    CopyPlaces(t5, 94, "%d\n\0");
    assert CopiedStrings() == t6;
  }

  /** The five RVA writes of `createImports`, all below offset 56. */
  function WriteRvas(t: seq<byte>): (r: seq<byte>)
    requires |t| >= 56
    ensures |r| == |t|
  {
    var t8 := WriteAt(t, 12, 0x1000 + 56);
    var t9 := WriteAt(t8, 16, 0x1000 + 40);
    var t10 := WriteAt(t9, 40, 0x1000 + 67);
    var t11 := WriteAt(t10, 44, 0x1000 + 74);
    WriteAt(t11, 48, 0x1000 + 82)
  }

  /** The RVA writes keep a string from offset 56 on. */
  lemma WriteRvasKeep(t: seq<byte>, at: int, s: string)
    requires |t| >= 56 && at >= 56 && StringAt(t, at, s)
    ensures StringAt(WriteRvas(t), at, s)
  {
    var t8 := WriteAt(t, 12, 0x1000 + 56);
    var t9 := WriteAt(t8, 16, 0x1000 + 40);
    var t10 := WriteAt(t9, 40, 0x1000 + 67);
    var t11 := WriteAt(t10, 44, 0x1000 + 74);
    WriteKeeps(t, 12, 0x1000 + 56, at, s);
    WriteKeeps(t8, 16, 0x1000 + 40, at, s);
    WriteKeeps(t9, 40, 0x1000 + 67, at, s);
    WriteKeeps(t10, 44, 0x1000 + 74, at, s);
    WriteKeeps(t11, 48, 0x1000 + 82, at, s);
  }

  /** Cutting a buffer keeps a string that ends before the cut. */
  lemma CutKeeps(t: seq<byte>, n: nat, at: int, s: string)
    requires n <= |t| && StringAt(t, at, s) && at + |s| <= n
    ensures StringAt(t[..n], at, s)
  {
    forall i | 0 <= i < |s| ensures t[..n][at + i] as int == s[i] as int {
      assert t[..n][at + i] == t[at + i];
    }
  }

  /** A string placed by the copies, kept by the cut and the writes. */
  lemma StringKept(at: int, s: string)
    requires at >= 56 && at + |s| <= ImportSize && StringAt(CopiedStrings(), at, s)
    ensures StringAt(CreateImports().table, at, s)
  {
    CutKeeps(CopiedStrings(), ImportSize, at, s);
    WriteRvasKeep(CopiedStrings()[..ImportSize], at, s);
  }

  /** Cutting the buffer at 100 and writing the RVAs below offset 56 keeps
      the strings. */
  lemma {:induction false} ImportStrings()
    ensures TableStrings(CreateImports().table)
  {
    CopiedStringsPlaced();
    StringKept(56, "msvcrt.dll\0");
    StringKept(67, HintName("exit"));
    StringKept(74, HintName("scanf"));
    StringKept(82, HintName("printf"));
    StringKept(91, "%d\0");
    StringKept(94, "%d\n\0");
  }

  /** The copies leave the first 56 bytes zero. */
  lemma CopiedZerosBelow()
    ensures forall i :: 0 <= i < 56 ==> CopiedStrings()[i] == 0
  {
  }

  /** The RVA words the writes leave, and the bytes they do not touch. */
  lemma WriteRvasWords(t: seq<byte>)
    requires |t| >= 56
    ensures var r := WriteRvas(t);
      && U32At(r, 12) == 0x1000 + 56 && U32At(r, 16) == 0x1000 + 40
      && U32At(r, 40) == 0x1000 + 67 && U32At(r, 44) == 0x1000 + 74 && U32At(r, 48) == 0x1000 + 82
      && forall i :: 0 <= i < 12 || 20 <= i < 40 || 52 <= i < |t| ==> r[i] == t[i]
  {
  }

  /** The bytes of the table the strings and the RVA writes leave alone:
      the unused descriptor fields, the zero descriptor that ends the
      descriptor array, and the zero thunk that ends the thunk array. */
  lemma ImportZeros()
    ensures var t := CreateImports().table;
      && (forall i :: 0 <= i < 12 || 20 <= i < 40 ==> t[i] == 0)
      && U32At(t, 52) == 0
  {
    CopiedZerosBelow();
    WriteRvasWords(CopiedStrings()[..ImportSize]);
  }

  /** The import table: the descriptor's name RVA resolves to "msvcrt.dll",
      its first thunk to offset 40, each thunk to the hint/name entry of its
      function, with a zero thunk and a zero descriptor as terminators; all
      strings end by offset 98, inside the table. */
  lemma ImportsLayout()
    ensures var t := CreateImports().table;
      && TableStrings(t)
      && (forall i :: 0 <= i < 12 || 20 <= i < 40 ==> t[i] == 0)
      && StringAt(t, RvaTarget(t, 12), "msvcrt.dll\0")
      && RvaTarget(t, 16) == 40
      && HintNameAt(t, RvaTarget(t, 40), "exit")
      && HintNameAt(t, RvaTarget(t, 44), "scanf")
      && HintNameAt(t, RvaTarget(t, 48), "printf")
      && U32At(t, 52) == 0
      && 94 + |"%d\n\0"| == 98 <= |t|
  {
    var t := CreateImports().table;
    ImportStrings();
    ImportZeros();
    WriteRvasWords(CopiedStrings()[..ImportSize]);
    HintNameOf(t, 67, "exit");
    HintNameOf(t, 74, "scanf");
    HintNameOf(t, 82, "printf");
  }

  /** The addresses handed to compilation: each `imp_` address is the IAT
      slot (image base plus section RVA plus offset) whose thunk names that
      function, and each format address holds its format string. */
  lemma ImportAddresses()
    ensures var r := CreateImports();
      var t := r.table;
      && r.impExit == ImageBase + TextBase + 40
      && r.impScanf == r.impExit + 4 && r.impPrintf == r.impScanf + 4
      && HintNameAt(t, RvaTarget(t, r.impExit - ImageBase - TextBase), "exit")
      && HintNameAt(t, RvaTarget(t, r.impScanf - ImageBase - TextBase), "scanf")
      && HintNameAt(t, RvaTarget(t, r.impPrintf - ImageBase - TextBase), "printf")
      && StringAt(t, r.sFmtAddr - ImageBase - TextBase, "%d\0")
      && StringAt(t, r.pFmtAddr - ImageBase - TextBase, "%d\n\0")
      && DataBase == ImageBase + TextBase + |t|
  {
    ImportsLayout();
  }

  /** The MS-DOS header: "MZ", zeros, and `e_lfanew` = 0x40 at 0x3c. */
  function DosHeader(): (r: seq<byte>)
    ensures |r| == 0x40
  {
    Ascii("MZ") + Zeros(0x3a) + [0x40, 0x00, 0x00, 0x00]
  }

  /** The signature and COFF file header: i386, one section, a 0xE0-byte
      optional header, flags 0x030F. */
  function FileHeader(): (r: seq<byte>)
    ensures |r| == 24
  {
    Ascii("PE") + [0x00, 0x00, 0x4C, 0x01, 0x01, 0x00] + Zeros(0x0c) + [0xE0, 0x00, 0x0F, 0x03]
  }

  /** `len(code) + pad + 0x1000` with `pad = 0x1000 - len(code) % 0x1000`. */
  function SizeOfImage(codeLen: nat): int {
    var pad := 0x1000 - codeLen % 0x1000;
    codeLen + pad + 0x1000
  }

  /** The standard fields of the PE32 optional header: magic 0x10B,
      linker version 0, `SizeOfCode`, zero initialised and uninitialised
      data sizes, the entry point, the bases of code and data and the image
      base. */
  function StandardFields(codeLen: nat, ep: int): (r: seq<byte>)
    ensures |r| == 32
  {
    [0x0B, 0x01, 0x00, 0x00] + Int2Byte(codeLen) + Zeros(0x08)
    + Int2Byte(ep) + Int2Byte(TextBase) + Int2Byte(TextBase) + Int2Byte(ImageBase)
  }

  /** The Windows-specific fields: section and file alignment, versions
      (subsystem 4.0), `SizeOfImage`, `SizeOfHeaders` 0x200, a zero
      checksum, the console subsystem, stack and heap sizes, loader flags
      and the number of data directories. */
  function WindowsFields(codeLen: nat): (r: seq<byte>)
    ensures |r| == 64
  {
    [0x00, 0x10, 0x00, 0x00, 0x00, 0x02, 0x00, 0x00]
    + Zeros(0x08)
    + [0x04, 0x00, 0x00, 0x00, 0x00, 0x00, 0x00, 0x00]
    + Int2Byte(SizeOfImage(codeLen))
    + [0x00, 0x02, 0x00, 0x00, 0x00, 0x00, 0x00, 0x00]
    + [0x03, 0x00, 0x00, 0x00]
    + [0x00, 0x00, 0x20, 0x00, 0x00, 0x10, 0x00, 0x00]
    + [0x00, 0x00, 0x10, 0x00, 0x00, 0x10, 0x00, 0x00]
    + [0x00, 0x00, 0x00, 0x00, 0x10, 0x00, 0x00, 0x00]
  }

  /** The sixteen data directories: all empty except the import table at
      RVA 0x1000 with the import table's length. */
  function DataDirectories(importLen: nat): (r: seq<byte>)
    ensures |r| == 16 * 8
  {
    Zeros(0x08) + [0x00, 0x10, 0x00, 0x00] + Int2Byte(importLen) + Zeros(14 * 8)
  }

  /** The PE32 optional header as `dumpExe` writes it. */
  function OptionalHeader(codeLen: nat, ep: int, importLen: nat): (r: seq<byte>)
    ensures |r| == 0xE0
  {
    StandardFields(codeLen, ep) + WindowsFields(codeLen) + DataDirectories(importLen)
  }

  /** The one section header, ".dodo": the whole code at RVA 0x1000, read
      from file offset 0x200, readable, writable and executable. */
  function SectionHeader(codeLen: nat): (r: seq<byte>)
    ensures |r| == 40
  {
    Ascii(".dodo") + [0x00, 0x00, 0x00]
    + Int2Byte(codeLen) + [0x00, 0x10, 0x00, 0x00]
    + Int2Byte(codeLen) + [0x00, 0x02, 0x00, 0x00]
    + Zeros(12) + [0x00, 0x00, 0x50, 0xE0]
  }

  /** Everything `dumpExe` writes before the padding. */
  function Headers(codeLen: nat, ep: int, importLen: nat): (r: seq<byte>)
    ensures |r| == 352
  {
    DosHeader() + FileHeader() + OptionalHeader(codeLen, ep, importLen) + SectionHeader(codeLen)
  }

  /** `dumpExe`: the headers, zeros up to the next multiple of 512 past the
      headers (`512 - ndump % 512`), then the code. The entry point is a
      parameter; `len(imports)` is the length of the table `createImports`
      left. The result is the 352 header bytes, zeros up to 0x200, which is
      both `SizeOfHeaders` and the section's raw-data pointer, then the
      code. */
  function DumpExe(code: seq<byte>, ep: int): (r: seq<byte>)
    ensures |r| == RawDataOffset + |code|
    ensures r[..352] == Headers(|code|, ep, ImportSize)
    ensures forall i :: 352 <= i < RawDataOffset ==> r[i] == 0
    ensures r[RawDataOffset..] == code
  {
    var h := Headers(|code|, ep, |CreateImports().table|);
    var z := Zeros(512 - |h| % 512);
    assert (h + z + code)[..512] == h + z;
    assert (h + z)[..352] == h;
    h + z + code
  }

  /** File offsets of the headers `dumpExe` writes and of the section. */
  const NtOffset: nat := 0x40
  const OptionalOffset: nat := 0x58
  const SectionOffset: nat := 0x138
  const RawDataOffset: nat := 0x200

  /** A word read in the left part of a concatenation. */
  lemma U32Left(a: seq<byte>, b: seq<byte>, k: nat)
    requires k + 4 <= |a|
    ensures U32At(a + b, k) == U32At(a, k)
  {
    assert (a + b)[k] == a[k] && (a + b)[k + 1] == a[k + 1];
    assert (a + b)[k + 2] == a[k + 2] && (a + b)[k + 3] == a[k + 3];
  }

  /** A word read in the right part of a concatenation. */
  lemma U32Right(a: seq<byte>, b: seq<byte>, k: nat)
    requires k + 4 <= |b|
    ensures U32At(a + b, |a| + k) == U32At(b, k)
  {
    var f := a + b;
    assert f[|a| + k] == b[k] && f[|a| + k + 1] == b[k + 1];
    assert f[|a| + k + 2] == b[k + 2] && f[|a| + k + 3] == b[k + 3];
  }

  /** A half-word read in the left part of a concatenation. */
  lemma U16Left(a: seq<byte>, b: seq<byte>, k: nat)
    requires k + 2 <= |a|
    ensures U16At(a + b, k) == U16At(a, k)
  {
    assert (a + b)[k] == a[k] && (a + b)[k + 1] == a[k + 1];
  }

  /** A half-word read in the right part of a concatenation. */
  lemma U16Right(a: seq<byte>, b: seq<byte>, k: nat)
    requires k + 2 <= |b|
    ensures U16At(a + b, |a| + k) == U16At(b, k)
  {
    var f := a + b;
    assert f[|a| + k] == b[k] && f[|a| + k + 1] == b[k + 1];
  }

  /** The DOS header: the "MZ" magic and `e_lfanew` pointing at the PE
      signature right after it. */
  lemma DosHeaderFields()
    ensures var d := DosHeader();
      && d[0] == 'M' as int && d[1] == 'Z' as int
      && U32At(d, 0x3c) == NtOffset == |d|
  {
  }

  /** The signature "PE\0\0", machine i386 (0x14C), one section, an optional
      header of 0xE0 bytes, flags 0x030F (relocations, line numbers and
      local symbols stripped, executable, 32-bit, debug stripped). */
  lemma FileHeaderFields()
    ensures var h := FileHeader();
      && U32At(h, 0) == 'P' as int + 0x100 * ('E' as int)
      && U16At(h, 4) == 0x14C && U16At(h, 6) == 1
      && U16At(h, 20) == 0xE0 && U16At(h, 22) == 0x030F
  {
  }

  lemma StandardFieldsRead(codeLen: nat, ep: int)
    ensures var o := StandardFields(codeLen, ep);
      && U16At(o, 0) == 0x10B
      && U32At(o, 4) == codeLen % X86.Two32
      && U32At(o, 16) == ep % X86.Two32
      && U32At(o, 20) == TextBase && U32At(o, 24) == TextBase && U32At(o, 28) == ImageBase
  {
  }

  lemma WindowsFieldsRead(codeLen: nat)
    ensures var w := WindowsFields(codeLen);
      && U32At(w, 0) == 0x1000 && U32At(w, 4) == 0x200
      && U32At(w, 24) == SizeOfImage(codeLen) % X86.Two32
      && U32At(w, 28) == RawDataOffset
      && U16At(w, 36) == 3
      && U32At(w, 60) == 16
  {
  }

  lemma DataDirectoriesRead(importLen: nat)
    ensures var d := DataDirectories(importLen);
      && U32At(d, 8) == TextBase && U32At(d, 12) == importLen % X86.Two32
  {
  }

  /** The PE32 optional header: its declared fields and, where the value is
      computed, the value modulo 2^32 that `int2byte` keeps. The sixteen
      data directories fill it exactly to its declared size. */
  lemma {:induction false} OptionalHeaderFields(codeLen: nat, ep: int, importLen: nat)
    ensures var o := OptionalHeader(codeLen, ep, importLen);
      && U16At(o, 0) == 0x10B
      && U32At(o, 4) == codeLen % X86.Two32
      && U32At(o, 16) == ep % X86.Two32
      && U32At(o, 20) == TextBase && U32At(o, 24) == TextBase && U32At(o, 28) == ImageBase
      && U32At(o, 32) == 0x1000 && U32At(o, 36) == 0x200
      && U32At(o, 56) == SizeOfImage(codeLen) % X86.Two32
      && U32At(o, 60) == RawDataOffset
      && U16At(o, 68) == 3
      && U32At(o, 92) == 16 && 96 + 8 * U32At(o, 92) == |o|
      && U32At(o, 104) == TextBase && U32At(o, 108) == importLen % X86.Two32
  {
    var s, w, d := StandardFields(codeLen, ep), WindowsFields(codeLen), DataDirectories(importLen);
    StandardFieldsRead(codeLen, ep);
    WindowsFieldsRead(codeLen);
    DataDirectoriesRead(importLen);
    U16Left(s + w, d, 0);
    U16Left(s, w, 0);
    forall k | k in {4, 16, 20, 24, 28} ensures U32At(s + w + d, k) == U32At(s, k) {
      U32Left(s + w, d, k);
      U32Left(s, w, k);
    }
    forall k | k in {0, 4, 24, 28, 60} ensures U32At(s + w + d, 32 + k) == U32At(w, k) {
      U32Left(s + w, d, 32 + k);
      U32Right(s, w, k);
    }
    U16Left(s + w, d, 68);
    U16Right(s, w, 36);
    U32Right(s + w, d, 8);
    U32Right(s + w, d, 12);
  }

  /** The section header: name ".dodo", virtual and raw size the code's
      length, RVA 0x1000 (`textBase`), raw data at file offset 0x200,
      characteristics 0xE0500000. */
  lemma SectionHeaderFields(codeLen: nat)
    ensures var s := SectionHeader(codeLen);
      && s[..5] == Ascii(".dodo")
      && U32At(s, 8) == codeLen % X86.Two32 && U32At(s, 12) == TextBase
      && U32At(s, 16) == codeLen % X86.Two32 && U32At(s, 20) == RawDataOffset
      && U32At(s, 36) == 0xE050_0000
  {
  }

  /** `SizeOfImage` is page aligned and covers the section, which starts
      at RVA 0x1000; when the code is already a whole number of pages the
      padding is a full extra page. */
  lemma SizeOfImageAligned(codeLen: nat)
    ensures SizeOfImage(codeLen) % 0x1000 == 0
    ensures TextBase + codeLen < SizeOfImage(codeLen) <= TextBase + codeLen + 0x1000
    ensures codeLen % 0x1000 == 0 <==> SizeOfImage(codeLen) == TextBase + codeLen + 0x1000
  {
  }

  /** The headers lie one after the other: a word of each is read at its
      offset in `Headers`. */
  lemma HeadersPlaced(codeLen: nat, ep: int, importLen: nat, k: nat)
    ensures var h := Headers(codeLen, ep, importLen);
      && (k + 4 <= 0x40 ==> U32At(h, k) == U32At(DosHeader(), k))
      && (k + 4 <= 24 ==> U32At(h, NtOffset + k) == U32At(FileHeader(), k)
                          && U16At(h, NtOffset + k) == U16At(FileHeader(), k))
      && (k + 4 <= 0xE0 ==> U32At(h, OptionalOffset + k) == U32At(OptionalHeader(codeLen, ep, importLen), k)
                            && U16At(h, OptionalOffset + k) == U16At(OptionalHeader(codeLen, ep, importLen), k))
      && (k + 4 <= 40 ==> U32At(h, SectionOffset + k) == U32At(SectionHeader(codeLen), k))
  {
    var d, fh, o, s := DosHeader(), FileHeader(), OptionalHeader(codeLen, ep, importLen), SectionHeader(codeLen);
    if k + 4 <= 0x40 {
      U32Left(d + fh + o, s, k);
      U32Left(d + fh, o, k);
      U32Left(d, fh, k);
    }
    if k + 4 <= 24 {
      U32Left(d + fh + o, s, NtOffset + k);
      U32Left(d + fh, o, NtOffset + k);
      U32Right(d, fh, k);
      U16Left(d + fh + o, s, NtOffset + k);
      U16Left(d + fh, o, NtOffset + k);
      U16Right(d, fh, k);
    }
    if k + 4 <= 0xE0 {
      U32Left(d + fh + o, s, OptionalOffset + k);
      U32Right(d + fh, o, k);
      U16Left(d + fh + o, s, OptionalOffset + k);
      U16Right(d + fh, o, k);
    }
    if k + 4 <= 40 {
      U32Right(d + fh + o, s, k);
    }
  }

  /** A word or half-word of the headers, read in the file. */
  lemma {:induction false} HeadersRead(code: seq<byte>, ep: int, x: nat)
    requires x + 4 <= 352
    ensures U32At(DumpExe(code, ep), x) == U32At(Headers(|code|, ep, ImportSize), x)
    ensures U16At(DumpExe(code, ep), x) == U16At(Headers(|code|, ep, ImportSize), x)
  {
    var h := Headers(|code|, ep, ImportSize);
    var z := Zeros(512 - |h| % 512);
    assert DumpExe(code, ep) == h + z + code;
    U32Left(h + z, code, x);
    U32Left(h, z, x);
    U16Left(h + z, code, x);
    U16Left(h, z, x);
  }

  /** The DOS and file headers as a loader reads them from the file: "MZ",
      `e_lfanew` at 0x3c pointing at "PE\0\0", an i386 image with one
      section and an optional header whose declared size is the distance
      to the section table. */
  lemma {:induction false} DumpExeFileHeader(code: seq<byte>, ep: int)
    ensures var f := DumpExe(code, ep);
      && f[0] == 'M' as int && f[1] == 'Z' as int
      && U32At(f, 0x3c) == NtOffset
      && U32At(f, NtOffset) == 'P' as int + 0x100 * ('E' as int)
      && U16At(f, NtOffset + 4) == 0x14C && U16At(f, NtOffset + 6) == 1
      && U16At(f, NtOffset + 20) == SectionOffset - OptionalOffset
  {
    var n := |code|;
    DosHeaderFields();
    FileHeaderFields();
    assert DumpExe(code, ep)[0] == DumpExe(code, ep)[..352][0];
    assert DumpExe(code, ep)[1] == DumpExe(code, ep)[..352][1];
    assert Headers(n, ep, ImportSize)[..0x40] == DosHeader();
    HeadersPlaced(n, ep, ImportSize, 0x3c);
    HeadersRead(code, ep, 0x3c);
    HeadersPlaced(n, ep, ImportSize, 0);
    HeadersRead(code, ep, NtOffset);
    HeadersPlaced(n, ep, ImportSize, 4);
    HeadersRead(code, ep, NtOffset + 4);
    HeadersPlaced(n, ep, ImportSize, 6);
    HeadersRead(code, ep, NtOffset + 6);
    HeadersPlaced(n, ep, ImportSize, 20);
    HeadersRead(code, ep, NtOffset + 20);
  }

  /** The optional header's standard fields as read from the file: a PE32
      image whose entry point is `ep`, to be loaded at 0x400000. */
  lemma {:induction false} DumpExeOptionalHeader(code: seq<byte>, ep: int)
    ensures var f := DumpExe(code, ep);
      && U16At(f, OptionalOffset) == 0x10B
      && U32At(f, OptionalOffset + 16) == ep % X86.Two32
      && U32At(f, OptionalOffset + 28) == ImageBase
  {
    var n := |code|;
    OptionalHeaderFields(n, ep, ImportSize);
    HeadersPlaced(n, ep, ImportSize, 0);
    HeadersRead(code, ep, OptionalOffset);
    HeadersPlaced(n, ep, ImportSize, 16);
    HeadersRead(code, ep, OptionalOffset + 16);
    HeadersPlaced(n, ep, ImportSize, 28);
    HeadersRead(code, ep, OptionalOffset + 28);
  }

  /** The optional header's layout fields as read from the file: 0x1000
      section and 0x200 file alignment, a `SizeOfImage` that is the
      page-aligned size, and headers that end where the section data
      begins. */
  lemma {:induction false} DumpExeAlignment(code: seq<byte>, ep: int)
    ensures var f := DumpExe(code, ep);
      && U32At(f, OptionalOffset + 32) == 0x1000 && U32At(f, OptionalOffset + 36) == 0x200
      && U32At(f, OptionalOffset + 56) == SizeOfImage(|code|) % X86.Two32
      && U32At(f, OptionalOffset + 60) == RawDataOffset
  {
    var n := |code|;
    OptionalHeaderFields(n, ep, ImportSize);
    HeadersPlaced(n, ep, ImportSize, 32);
    HeadersRead(code, ep, OptionalOffset + 32);
    HeadersPlaced(n, ep, ImportSize, 36);
    HeadersRead(code, ep, OptionalOffset + 36);
    HeadersPlaced(n, ep, ImportSize, 56);
    HeadersRead(code, ep, OptionalOffset + 56);
    HeadersPlaced(n, ep, ImportSize, 60);
    HeadersRead(code, ep, OptionalOffset + 60);
  }

  /** The import directory as read from the file: at the start of the
      section, as long as the import table. */
  lemma {:induction false} DumpExeImportDirectory(code: seq<byte>, ep: int)
    ensures var f := DumpExe(code, ep);
      && U32At(f, OptionalOffset + 104) == TextBase
      && U32At(f, OptionalOffset + 108) == ImportSize
  {
    var n := |code|;
    OptionalHeaderFields(n, ep, ImportSize);
    HeadersPlaced(n, ep, ImportSize, 104);
    HeadersRead(code, ep, OptionalOffset + 104);
    HeadersPlaced(n, ep, ImportSize, 108);
    HeadersRead(code, ep, OptionalOffset + 108);
  }

  /** The section table as read from the file: the code's length as virtual
      and raw size, RVA 0x1000, raw data at 0x200. */
  lemma {:induction false} DumpExeSection(code: seq<byte>, ep: int)
    ensures var f := DumpExe(code, ep);
      && U32At(f, SectionOffset + 8) == |code| % X86.Two32
      && U32At(f, SectionOffset + 12) == TextBase
      && U32At(f, SectionOffset + 16) == |code| % X86.Two32
      && U32At(f, SectionOffset + 20) == RawDataOffset
  {
    var n := |code|;
    SectionHeaderFields(n);
    forall k | k in {8, 12, 16, 20}
      ensures U32At(DumpExe(code, ep), SectionOffset + k) == U32At(SectionHeader(n), k)
    {
      HeadersPlaced(n, ep, ImportSize, k);
      HeadersRead(code, ep, SectionOffset + k);
    }
  }

  /** With the import table at the front of the code, as the compiler
      lays it out, a loader that maps the import directory's RVA through
      the section header finds exactly that table in the file. */
  lemma {:induction false} ImportsInImage(code: seq<byte>, ep: int)
    requires |code| >= ImportSize && code[..ImportSize] == CreateImports().table
    ensures var f := DumpExe(code, ep);
      var rva, size := U32At(f, OptionalOffset + 104), U32At(f, OptionalOffset + 108);
      var start := U32At(f, SectionOffset + 20) + rva - U32At(f, SectionOffset + 12);
      && 0 <= start <= start + size <= |f|
      && f[start..start + size] == CreateImports().table
  {
    DumpExeImportDirectory(code, ep);
    DumpExeSection(code, ep);
    var f := DumpExe(code, ep);
    assert f[RawDataOffset..RawDataOffset + ImportSize] == f[RawDataOffset..][..ImportSize];
  }
}
