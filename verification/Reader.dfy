/** The off-board reader: an independent walk over a file, as read_fae.py does it. */
module Reader {
  import opened Words
  import opened Memories
  import opened Fae

  const MINIMAL_SIZE := 36

  /** A Python slice bound for a sequence of length n. */
  function Bound(i: int, n: nat): nat {
    if i < 0 then (if n + i < 0 then 0 else n + i) else if i > n then n else i
  }

  /** f[lo:hi] in Python: bounds count from the end when negative, and are clamped. */
  function Slice(f: seq<byte>, lo: int, hi: int): (s: seq<byte>) {
    var l, h := Bound(lo, |f|), Bound(hi, |f|);
    if l <= h then f[l..h] else []
  }

  /** get_word_from_memoryview; fewer than four bytes near the end of the file. */
  function GetWord(f: seq<byte>, start: int): nat {
    if start < 0 && start + 4 == 0 then FromBytes(Slice(f, start, |f|))
    else FromBytes(Slice(f, start, start + 4))
  }

  lemma GetWordFull(f: seq<byte>, start: int)
    requires (0 <= start && start + 4 <= |f|) || (-|f| <= start <= -4)
    ensures var o := if start < 0 then |f| + start else start;
      0 <= o && o + 4 <= |f| && GetWord(f, start) == FromLE(f[o], f[o + 1], f[o + 2], f[o + 3]) == WordOf(f, o)
  {
    var o := if start < 0 then |f| + start else start;
    assert GetWord(f, start) == FromBytes(f[o..o + 4]);
    FromBytesOfFour(f[o..o + 4]);
  }

  /** Near the end of the file the slice is cut short. */
  lemma GetWordShort(f: seq<byte>, start: nat)
    requires |f| < start + 4
    ensures GetWord(f, start) == if start <= |f| then FromBytes(f[start..]) else 0
  {
    assert start <= |f| ==> f[start..|f|] == f[start..];
    assert f[|f|..|f|] == [] && FromBytes([]) == 0;
  }

  datatype Report = Report(crt0Size: nat, relocations: nat, alignText: nat, partitionAt: nat, entrypoint: nat,
                           romRamSize: nat, romSize: nat, gotSize: nat, ramSize: nat)

  /** How the script ends: one of its complaints, a Python exception, or the report. */
  datatype Reading =
    | EmptyFile | TooSmall | BadMagic | BadVersion | Crt0SizeTooLarge | Crt0SizeZero | SizeMismatch
    | TableTooLarge | IndexError | EntrypointTooLarge | RomRamTooLarge | RomTooLarge | EntrypointOutsideRom
    | GotTooLarge | NameError | Accepted(report: Report)

  /** Where the relocation entries end, for a table at h. */
  function TableEndIn(f: seq<byte>, h: nat): nat {
    h + 8 + 4 * GetWord(f, h + 4)
  }

  function ReportOf(f: seq<byte>): Report
    requires TableEndIn(f, GetWord(f, -8)) <= |f|
  {
    var h := GetWord(f, -8);
    var at := FirstNonZero(f, TableEndIn(f, h));
    Report(h, GetWord(f, h + 4), at - TableEndIn(f, h), at, GetWord(f, -12), GetWord(f, -16), GetWord(f, -20),
           GetWord(f, -24), GetWord(f, -28))
  }

  ghost predicate MagicFine(f: seq<byte>) {
    |f| > MINIMAL_SIZE && GetWord(f, -4) == MAGIC
  }

  /** A crt0, and behind it the file's own size. */
  ghost predicate SizeFine(f: seq<byte>) {
    MagicFine(f) && 0 < GetWord(f, -8) < |f| && GetWord(f, GetWord(f, -8)) == |f|
  }

  /** All the header promises: the relocation table ends inside the file, too. */
  ghost predicate HeaderFine(f: seq<byte>) {
    SizeFine(f) && TableEndIn(f, GetWord(f, -8)) < |f|
  }

  /** What the sizes promise: each less than the file, a nonempty .rom, the entry point not
      behind it. */
  ghost predicate SizesFine(f: seq<byte>) {
    var n := |f|;
    && GetWord(f, -12) < n && GetWord(f, -16) < n && 0 < GetWord(f, -20) < n && GetWord(f, -24) < n
    && GetWord(f, -12) <= GetWord(f, -20)
  }

  /** Each ending, and the files that lead to it. */
  ghost predicate ReadsAs(f: seq<byte>, reading: Reading) {
    var n, magic, h := |f|, GetWord(f, -4), GetWord(f, -8);
    var entrypoint, romRam, rom, got := GetWord(f, -12), GetWord(f, -16), GetWord(f, -20), GetWord(f, -24);
    match reading
    case EmptyFile => n == 0
    case TooSmall => 0 < n <= MINIMAL_SIZE
    case BadMagic => n > MINIMAL_SIZE && magic < MAGIC_NUMBER
    case BadVersion => n > MINIMAL_SIZE && magic >= MAGIC_NUMBER && magic != MAGIC
    case Crt0SizeTooLarge => MagicFine(f) && h >= n
    case Crt0SizeZero => MagicFine(f) && h == 0
    case SizeMismatch => MagicFine(f) && 0 < h < n && GetWord(f, h) != n
    case TableTooLarge => SizeFine(f) && 4 * GetWord(f, h + 4) >= n
    case IndexError => SizeFine(f) && 4 * GetWord(f, h + 4) < n <= TableEndIn(f, h)
    case EntrypointTooLarge => HeaderFine(f) && entrypoint >= n
    case RomRamTooLarge => HeaderFine(f) && entrypoint < n && romRam >= n
    case RomTooLarge => HeaderFine(f) && entrypoint < n && romRam < n && rom >= n
    case EntrypointOutsideRom => HeaderFine(f) && romRam < n && 0 < rom < entrypoint < n
    case GotTooLarge =>
      HeaderFine(f) && entrypoint < n && romRam < n && rom < n && (rom == 0 || entrypoint <= rom) && got >= n
    case NameError => HeaderFine(f) && entrypoint < n && romRam < n && rom == 0 && got < n
    case Accepted(report) => HeaderFine(f) && SizesFine(f) && report == ReportOf(f)
  }

  /** The ending of a file, complaint by complaint in the order of the script: `count` is the number
      of table entries read behind the size word of the crt0, `own` that size word. */
  lemma ReadingExact(f: seq<byte>, r: Reading, h: nat, own: nat, count: nat)
    requires ReadsAs(f, r)
    requires |f| > 36 ==> h == WordOf(f, |f| - 8) && own == GetWord(f, h) && count == GetWord(f, h + 4)
    ensures |f| == 0 ==> r == EmptyFile
    ensures 0 < |f| <= 36 ==> r == TooSmall
    ensures |f| > 36 ==>
      var n, magic := |f|, WordOf(f, |f| - 4);
      var start, data, rom, got := WordOf(f, n - 12), WordOf(f, n - 16), WordOf(f, n - 20), WordOf(f, n - 24);
      if magic < 0xFACADE00 then r == BadMagic
      else if magic != 0xFACADE12 then r == BadVersion
      else if h >= n then r == Crt0SizeTooLarge
      else if h == 0 then r == Crt0SizeZero
      else if own != n then r == SizeMismatch
      else if 4 * count >= n then r == TableTooLarge
      else if h + 8 + 4 * count >= n then r == IndexError
      else if start >= n then r == EntrypointTooLarge
      else if data >= n then r == RomRamTooLarge
      else if rom >= n then r == RomTooLarge
      else if 0 < rom < start then r == EntrypointOutsideRom
      else if got >= n then r == GotTooLarge
      else if rom == 0 then r == NameError
      else r.Accepted?
  {
    hide GetWord, WordOf;
    if |f| > 36 {
      GetWordFull(f, -4);
      GetWordFull(f, -8);
      GetWordFull(f, -12);
      GetWordFull(f, -16);
      GetWordFull(f, -20);
      GetWordFull(f, -24);
      hide FromLE;
    }
  }

  /** What an accepting reader reports, and that the partition is taken to begin at the first byte
      behind the table that is not zero. */
  lemma ReportExact(f: seq<byte>, r: Report, h: nat, count: nat)
    requires ReadsAs(f, Accepted(r)) && |f| > 36 && h == WordOf(f, |f| - 8) && count == GetWord(f, h + 4)
    ensures var n, table := |f|, h + 8 + 4 * count;
      && r.crt0Size == h && r.relocations == count && r.partitionAt == table + r.alignText < n
      && f[r.partitionAt] != 0 && (forall i :: table <= i < r.partitionAt ==> f[i] == 0)
      && r.entrypoint == WordOf(f, n - 12) && r.romRamSize == WordOf(f, n - 16) && r.romSize == WordOf(f, n - 20)
      && r.gotSize == WordOf(f, n - 24) && r.ramSize == WordOf(f, n - 28)
  {
    hide GetWord, WordOf;
    GetWordFull(f, -8);
    GetWordFull(f, -12);
    GetWordFull(f, -16);
    GetWordFull(f, -20);
    GetWordFull(f, -24);
    GetWordFull(f, -28);
    LastByteOfMagic(f);
    hide FromLE;
  }

  /** A file leads to one ending only. */
  lemma ReadingUnique(f: seq<byte>, r: Reading, r': Reading)
    requires ReadsAs(f, r) && ReadsAs(f, r')
    ensures r == r'
  {
    hide GetWord;
  }

  lemma LastByteOfMagic(f: seq<byte>)
    requires |f| >= 4 && GetWord(f, -4) == MAGIC
    ensures f[|f| - 4] == 0x12 && f[|f| - 3] == 0xDE && f[|f| - 2] == 0xCA && f[|f| - 1] == 0xFA
  {
    GetWordFull(f, -4);
    var n := |f|;
    FromLEValue(f[n - 4], f[n - 3], f[n - 2], f[n - 1]);
  }

  /** The script: the one ending the file leads to, reached without indexing past the file
      except where that is the ending. */
  method Read(f: seq<byte>) returns (reading: Reading)
    ensures ReadsAs(f, reading)
    ensures reading.Accepted? <==> HeaderFine(f) && SizesFine(f)
  {
    hide FromBytes, Slice, GetWord;
    var size := |f|;
    if size == 0 {
      return EmptyFile;
    }
    if size <= MINIMAL_SIZE {
      return TooSmall;
    }
    var magic := GetWord(f, -4);
    if magic < MAGIC_NUMBER {
      return BadMagic;
    }
    if magic - MAGIC_NUMBER != VERSION {
      return BadVersion;
    }
    var crt0Size := GetWord(f, -8);
    if crt0Size >= size {
      return Crt0SizeTooLarge;
    }
    if crt0Size == 0 {
      return Crt0SizeZero;
    }
    if GetWord(f, crt0Size) != size {
      return SizeMismatch;
    }
    var position := crt0Size + 4;
    var count := GetWord(f, position);
    position := position + 4;
    if count * 4 >= size {
      return TableTooLarge;
    }
    if count * 4 > 0 {
      position := position + count * 4;
    }
    assert position == TableEndIn(f, crt0Size);
    if position >= size {
      return IndexError;
    }
    LastByteOfMagic(f);
    var alignText := 0;
    while f[position] == 0
      invariant position == TableEndIn(f, crt0Size) + alignText < size
      invariant FirstNonZero(f, TableEndIn(f, crt0Size)) == FirstNonZero(f, position)
      decreases size - position
    {
      position := position + 1;
      alignText := alignText + 1;
    }
    assert position == FirstNonZero(f, TableEndIn(f, crt0Size));
    var entrypoint, romRamSize := GetWord(f, -12), GetWord(f, -16);
    if entrypoint >= size {
      return EntrypointTooLarge;
    }
    if romRamSize >= size {
      return RomRamTooLarge;
    }
    var romSize := GetWord(f, -20);
    if romSize >= size {
      return RomTooLarge;
    }
    if romSize > 0 && entrypoint > romSize {
      return EntrypointOutsideRom;
    }
    var gotSize := GetWord(f, -24);
    if gotSize >= size {
      return GotTooLarge;
    }
    if romSize == 0 {
      return NameError;
    }
    return Accepted(Report(crt0Size, count, alignText, position, entrypoint, romRamSize, romSize, gotSize,
                           GetWord(f, -28)));
  }
}
