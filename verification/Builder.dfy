/** The builder: bytes appended to growing arrays, as build_fae.py does. */
module Builder {
  import opened Words
  import opened Masks
  import opened Memories
  import opened Fae

  /** A Python bytearray. */
  class ByteArray {
    var bytes: seq<byte>

    constructor ()
      ensures bytes == []
    {
      bytes := [];
    }
  }

  /** One entry of a relocation section, and the section as the ELF file has it. */
  datatype Relocation = Relocation(info: nat, offset: nat)
  datatype RelocSection = Missing | NotRelocations | WithAddends | Relocations(entries: seq<Relocation>)

  const R_ARM_ABS32 := 2

  function RelocType(info: nat): (t: nat)
    ensures t == info % 256
  {
    AndSplit(info, 0xff);
    AndHighMask(info, 8);
    assert Pow2(8) == 256;
    And(info, 0xff)
  }

  predicate EntryExportable(r: Relocation) {
    RelocType(r.info) == R_ARM_ABS32 && r.offset < SPACE
  }

  /** What the exporter accepts: no section, or absolute 32-bit relocations without addends. */
  predicate Exportable(section: RelocSection) {
    match section
    case Missing => true
    case NotRelocations => false
    case WithAddends => false
    case Relocations(es) => |es| < SPACE && forall i :: 0 <= i < |es| ==> EntryExportable(es[i])
  }

  function OffsetAt(es: seq<Relocation>, i: nat): word
    requires i < |es| && EntryExportable(es[i])
  {
    es[i].offset
  }

  function Offsets(es: seq<Relocation>): (ws: seq<word>)
    requires forall i :: 0 <= i < |es| ==> EntryExportable(es[i])
    ensures |ws| == |es| && forall i :: 0 <= i < |es| ==> ws[i] == es[i].offset
  {
    seq(|es|, i requires 0 <= i < |es| && EntryExportable(es[i]) => OffsetAt(es, i))
  }

  function TableOf(section: RelocSection): (ws: seq<word>)
    requires Exportable(section)
    ensures |ws| > 0 && ws[0] == |ws| - 1
    ensures section == Missing ==> ws == [0]
    ensures section.Relocations? ==>
      |ws| == 1 + |section.entries| && forall i :: 0 <= i < |section.entries| ==> ws[i + 1] == section.entries[i].offset
  {
    if section == Missing then [0] else [|section.entries|] + Offsets(section.entries)
  }

  /** The same in numbers, and what the table says. */
  lemma ExportableExact(section: RelocSection)
    ensures Exportable(section) <==>
      || section == Missing
      || (section.Relocations? && |section.entries| < 0x1_0000_0000
          && forall i :: 0 <= i < |section.entries| ==>
               section.entries[i].info % 256 == 2 && section.entries[i].offset < 0x1_0000_0000)
  {
    hide RelocType;
    if section.Relocations? {
      var es := section.entries;
      forall i | 0 <= i < |es|
        ensures EntryExportable(es[i]) <==> es[i].info % 256 == 2 && es[i].offset < 0x1_0000_0000
      {
      }
    }
  }

  lemma TableBytes(start: seq<byte>, ws: seq<word>)
    ensures |start + Concat(ws)| == |start| + 4 * |ws|
    ensures forall i :: 0 <= i < |ws| ==> WordOf(start + Concat(ws), |start| + 4 * i) == ws[i]
  {
    hide Concat, WordOf, ToWord;
    var s := start + Concat(ws);
    forall i | 0 <= i < |ws|
      ensures WordOf(s, |start| + 4 * i) == ws[i]
    {
      ConcatAt(ws, i);
      assert s[|start| + 4 * i..|start| + 4 * i + 4] == Concat(ws)[4 * i..4 * i + 4];
      WordInSlice(s, |start| + 4 * i, ws[i]);
    }
  }

  /** The bytes of an exported table: how many entries, then where they are. */
  lemma ExportedBytes(section: RelocSection, start: seq<byte>)
    requires Exportable(section)
    ensures var s, at := start + Concat(TableOf(section)), |start|;
      && (section == Missing ==> s == start + [0, 0, 0, 0])
      && (section.Relocations? ==>
           && |s| == at + 4 + 4 * |section.entries| && WordOf(s, at) == |section.entries|
           && forall i :: 0 <= i < |section.entries| ==> WordOf(s, at + 4 + 4 * i) == section.entries[i].offset)
  {
    hide Concat, TableOf, WordOf, Exportable;
    var ws := TableOf(section);
    TableBytes(start, ws);
    EntriesFit(section);
    if section == Missing {
      NoEntries();
    } else {
      var s, at, es := start + Concat(ws), |start|, section.entries;
      forall i | 0 <= i < |es|
        ensures WordOf(s, at + 4 + 4 * i) == es[i].offset
      {
        assert WordOf(s, at + 4 * (i + 1)) == ws[i + 1];
      }
      assert WordOf(s, at + 4 * 0) == ws[0];
    }
  }

  lemma NoEntries()
    ensures Concat([0]) == [0, 0, 0, 0]
  {
    assert [0][1..] == [];
    assert Concat([]) == [];
    assert ToWord(0) == [0, 0, 0, 0];
  }

  /** `to_bytearray += to_word(x)`; false is the OverflowError of to_bytes. */
  method AppendWord(to: ByteArray, x: int) returns (ok: bool)
    modifies to
    ensures ok <==> 0 <= x < SPACE
    ensures to.bytes == if ok then old(to.bytes) + ToWord(x) else old(to.bytes)
  {
    if x < 0 || SPACE <= x {
      return false;
    }
    to.bytes := to.bytes + ToWord(x);
    return true;
  }

  method AppendFill(to: ByteArray, value: byte, n: nat)
    modifies to
    ensures to.bytes == old(to.bytes) + Repeat(value, n)
  {
    for i := 0 to n
      invariant to.bytes == old(to.bytes) + Repeat(value, i)
    {
      to.bytes := to.bytes + [value];
    }
  }

  /** Appends one more word of a table or footer of which `done` is there already. */
  method AppendNext(to: ByteArray, x: int, ghost start: seq<byte>, ghost done: seq<word>)
    returns (ok: bool, ghost more: seq<word>)
    requires to.bytes == start + Concat(done)
    modifies to
    ensures ok <==> 0 <= x < SPACE
    ensures ok ==> more == done + [x] && to.bytes == start + Concat(more)
  {
    hide ToWord, Concat;
    ok := AppendWord(to, x);
    more := done;
    if ok {
      more := done + [x];
      ConcatAppend(done, x);
    }
  }

  lemma NoWords(start: seq<byte>)
    ensures start + Concat([]) == start
  {
  }

  /** `done` is the table up to and including entry i - 1, every one of them exportable. */
  ghost predicate ExportedUpTo(es: seq<Relocation>, i: nat, done: seq<word>) {
    && |done| == i + 1 && i <= |es| < SPACE && done[0] == |es|
    && forall j :: 0 <= j < i ==> EntryExportable(es[j]) && done[j + 1] == es[j].offset
  }

  lemma ExportStep(es: seq<Relocation>, i: nat, done: seq<word>)
    requires i < |es| && ExportedUpTo(es, i, done)
    ensures EntryExportable(es[i]) ==> ExportedUpTo(es, i + 1, done + [es[i].offset])
    ensures !EntryExportable(es[i]) ==> !Exportable(Relocations(es))
  {
    hide EntryExportable;
  }

  lemma ExportDone(es: seq<Relocation>, done: seq<word>)
    requires ExportedUpTo(es, |es|, done)
    ensures Exportable(Relocations(es)) && done == TableOf(Relocations(es))
  {
    hide EntryExportable;
    assert done == TableOf(Relocations(es));
  }

  /** Appends the count and the offsets; false where the script dies. */
  method ExportRelocationTable(section: RelocSection, to: ByteArray) returns (ok: bool)
    modifies to
    ensures ok <==> Exportable(section)
    ensures ok <==>
      || section == Missing
      || (section.Relocations? && |section.entries| < 0x1_0000_0000
          && forall i :: 0 <= i < |section.entries| ==>
               section.entries[i].info % 256 == 2 && section.entries[i].offset < 0x1_0000_0000)
    ensures ok ==> to.bytes == old(to.bytes) + Concat(TableOf(section))
    ensures ok && section == Missing ==> to.bytes == old(to.bytes) + [0, 0, 0, 0]
    ensures ok && section.Relocations? ==>
      var es, at := section.entries, |old(to.bytes)|;
      && |to.bytes| == at + 4 + 4 * |es| && to.bytes[..at] == old(to.bytes) && WordOf(to.bytes, at) == |es|
      && forall i :: 0 <= i < |es| ==> WordOf(to.bytes, at + 4 + 4 * i) == es[i].offset
  {
    ghost var start := to.bytes;
    ok := ExportTable(section, to);
    hide Exportable, TableOf, Concat, WordOf;
    ExportableExact(section);
    if ok {
      ExportedBytes(section, start);
    }
  }

  method ExportTable(section: RelocSection, to: ByteArray) returns (ok: bool)
    modifies to
    ensures ok <==> Exportable(section)
    ensures ok ==> to.bytes == old(to.bytes) + Concat(TableOf(section))
  {
    hide Concat, EntryExportable, ExportedUpTo, Offsets;
    ghost var start: seq<byte>, done: seq<word> := to.bytes, [];
    NoWords(start);
    match section {
      case Missing =>
        ok, done := AppendNext(to, 0, start, done);
        assert done == TableOf(Missing);
      case NotRelocations => ok := false;
      case WithAddends => ok := false;
      case Relocations(es) =>
        ok, done := AppendNext(to, |es|, start, done);
        if ok {
          ok := ExportEntries(es, to, start, done);
        }
    }
  }

  /** The loop over the relocations. */
  method ExportEntries(es: seq<Relocation>, to: ByteArray, ghost start: seq<byte>, ghost count: seq<word>)
    returns (ok: bool)
    requires |es| < SPACE && count == [|es|] && to.bytes == start + Concat(count)
    modifies to
    ensures ok <==> Exportable(Relocations(es))
    ensures ok ==> to.bytes == start + Concat(TableOf(Relocations(es)))
  {
    hide Concat, TableOf, ExportedUpTo, Exportable, RelocType;
    ghost var done := count;
    ExportStart(es);
    for i := 0 to |es|
      invariant ExportedUpTo(es, i, done)
      invariant to.bytes == start + Concat(done)
    {
      ExportStep(es, i, done);
      if RelocType(es[i].info) != R_ARM_ABS32 {
        return false;
      }
      ok, done := AppendNext(to, es[i].offset, start, done);
      if !ok {
        return;
      }
    }
    ExportDone(es, done);
    return true;
  }

  lemma ExportStart(es: seq<Relocation>)
    requires |es| < SPACE
    ensures ExportedUpTo(es, 0, [|es|])
  {
  }

  /** The padding in front of the footer. */
  method FooterPadding(rawSize: nat) returns (padding: nat)
    ensures padding == Padding(rawSize)
  {
    hide Round;
    RoundBounds(rawSize, MPU_ALIGNMENT);
    padding := Round(rawSize, MPU_ALIGNMENT) - rawSize;
    if padding < FOOTER_SIZE {
      padding := padding + MPU_ALIGNMENT;
    }
    padding := padding - FOOTER_SIZE;
  }

  /** Everything in front of the footer. */
  method AppendFront(crt0: seq<byte>, size: int, relocation: seq<byte>, alignText: nat, partition: seq<byte>,
                     padding: nat, to: ByteArray) returns (ok: bool)
    modifies to
    ensures ok <==> 0 <= size < SPACE
    ensures ok ==> to.bytes == old(to.bytes) + crt0 + ToWord(size) + relocation + Repeat(0, alignText) + partition
                               + Repeat(0xff, padding)
  {
    hide ToWord, Repeat;
    to.bytes := to.bytes + crt0;
    ok := AppendWord(to, size);
    if !ok {
      return false;
    }
    to.bytes := to.bytes + relocation;
    AppendFill(to, 0, alignText);
    to.bytes := to.bytes + partition;
    AppendFill(to, 0xff, padding);
  }

  /** Appends a whole file: parts, padding and footer; false once a number does not fit a word. */
  method ConcatenateAndPad(crt0: seq<byte>, symbols: Symbols, relocation: seq<byte>, ghost table: seq<word>,
                           alignText: nat, partition: seq<byte>, to: ByteArray) returns (ok: bool)
    requires relocation == Concat(table)
    modifies to
    ensures var b := Parts(crt0, symbols, table, alignText, partition);
      && (ok <==> b.Encodable())
      && (ok ==> to.bytes == old(to.bytes) + File(b))
    ensures ok <==>
      && symbols.start < 0x1_0000_0000 && symbols.romSize < 0x1_0000_0000 && symbols.gotSize < 0x1_0000_0000
      && symbols.dataSize < 0x1_0000_0000 && symbols.bssSize < 0x1_0000_0000
      && |crt0| + 4 + |relocation| + alignText + |partition| + 28 <= 0xFFFF_FFE0
  {
    hide Round, Padding, ToWord, Concat, FooterWords, Repeat, File;
    ghost var b, start := Parts(crt0, symbols, table, alignText, partition), to.bytes;
    EncodableExact(b);
    var headerSize := |crt0| + 4 + |relocation|;
    var rawSize := headerSize + alignText + |partition|;
    var padding := FooterPadding(rawSize);
    var size := rawSize + padding + FOOTER_SIZE;
    assert rawSize == b.Raw() && size == b.Size();
    ok := AppendFront(crt0, size, relocation, alignText, partition, padding, to);
    if !ok {
      return false;
    }
    hide Parts.Raw, Parts.Size;
    ok := AppendFooter(symbols, |crt0|, b, to);
    if ok {
      FileInOrder(b, start);
    }
  }

  /** Appending the pieces one after the other appends the file. */
  lemma FileInOrder(b: Parts, start: seq<byte>)
    requires b.Encodable()
    ensures start + b.crt0 + ToWord(b.Size()) + Concat(b.table) + Repeat(0, b.pad) + b.partition
            + Repeat(0xff, Padding(b.Raw())) + Concat(FooterWords(b)) == start + File(b)
  {
    hide Padding, ToWord, Concat, FooterWords, Repeat;
  }

  method AppendFooter(symbols: Symbols, crt0Size: nat, ghost b: Parts, to: ByteArray) returns (ok: bool)
    requires b.Size() < SPACE && symbols == b.symbols && crt0Size == |b.crt0|
    modifies to
    ensures ok <==> b.Encodable()
    ensures ok ==> to.bytes == old(to.bytes) + Concat(FooterWords(b))
  {
    hide Concat, Padding;
    ghost var start: seq<byte>, done: seq<word> := to.bytes, [];
    NoWords(start);
    ok, done := AppendNext(to, symbols.bssSize, start, done);
    if !ok { return; }
    ok, done := AppendNext(to, symbols.gotSize, start, done);
    if !ok { return; }
    ok, done := AppendNext(to, symbols.romSize, start, done);
    if !ok { return; }
    ok, done := AppendNext(to, symbols.dataSize, start, done);
    if !ok { return; }
    ok, done := AppendNext(to, symbols.start, start, done);
    if !ok { return; }
    ok, done := AppendNext(to, crt0Size, start, done);
    if !ok { return; }
    ok, done := AppendNext(to, MAGIC, start, done);
    assert done == FooterWords(b);
  }

  /** The parts the script puts together for the given inputs. */
  function PartsOf(crt0: seq<byte>, symbols: Symbols, section: RelocSection, align: nat, partition: seq<byte>): Parts
    requires Exportable(section)
  {
    var table := TableOf(section);
    Parts(crt0, symbols, table, TextAlignment(|crt0| + 4 + 4 * |table|, align), partition)
  }

  lemma BuiltParts(crt0: seq<byte>, symbols: Symbols, section: RelocSection, align: nat, partition: seq<byte>)
    requires Exportable(section)
    ensures var b, n := PartsOf(crt0, symbols, section, align, partition),
                        if section.Relocations? then |section.entries| else 0;
      && b.crt0 == crt0 && b.symbols == symbols && b.partition == partition
      && b.pad == TextAlignment(|crt0| + 8 + 4 * n, align)
      && |b.table| == n + 1 && b.table[0] == n && forall i :: 0 <= i < n ==> b.table[i + 1] == section.entries[i].offset
  {
    hide TextAlignment;
    assert PartsOf(crt0, symbols, section, align, partition).table == TableOf(section);
  }

  /** The file f of the parts, in the terms of what the script was given. */
  lemma BuiltBytes(crt0: seq<byte>, symbols: Symbols, section: RelocSection, align: nat, partition: seq<byte>,
                   f: seq<byte>, n: nat, pad: nat)
    requires Exportable(section) && PartsOf(crt0, symbols, section, align, partition).Encodable()
    requires f == File(PartsOf(crt0, symbols, section, align, partition))
    requires n == if section.Relocations? then |section.entries| else 0
    requires pad == TextAlignment(|crt0| + 8 + 4 * n, align)
    ensures var h, t := |crt0|, |crt0| + 8 + 4 * n;
      && t <= |f| && f[..h] == crt0 && WordOf(f, h) == |f| && WordOf(f, h + 4) == n
      && forall i :: 0 <= i < n ==> WordOf(f, h + 8 + 4 * i) == section.entries[i].offset
    ensures var t, at, end := |crt0| + 8 + 4 * n, |crt0| + 8 + 4 * n + pad, |crt0| + 8 + 4 * n + pad + |partition|;
      && end + 28 <= |f| < end + 60 && |f| % 32 == 0 && f[at..end] == partition
      && (forall i :: t <= i < at ==> f[i] == 0) && forall i :: end <= i < |f| - 28 ==> f[i] == 0xff
    ensures var e := |f|;
      && e >= 28 && WordOf(f, e - 28) == symbols.bssSize && WordOf(f, e - 24) == symbols.gotSize
      && WordOf(f, e - 20) == symbols.romSize && WordOf(f, e - 16) == symbols.dataSize
      && WordOf(f, e - 12) == symbols.start && WordOf(f, e - 8) == |crt0| && f[e - 4..] == [0x12, 0xDE, 0xCA, 0xFA]
  {
    hide *;
    BuiltParts(crt0, symbols, section, align, partition);
    var b := PartsOf(crt0, symbols, section, align, partition);
    FileFrontExact(b);
    FileFooterExact(b);
    var h := |crt0|;
    assert WordOf(f, h + 4 + 4 * 0) == b.table[0];
    forall i | 0 <= i < n
      ensures WordOf(f, h + 8 + 4 * i) == section.entries[i].offset
    {
      assert WordOf(f, h + 4 + 4 * (i + 1)) == b.table[i + 1];
    }
  }

  /** When there is a file, in the terms of what the script was given. */
  lemma BuildableExact(crt0: seq<byte>, symbols: Symbols, section: RelocSection, align: nat, partition: seq<byte>)
    ensures var n := if section.Relocations? then |section.entries| else 0;
      (Exportable(section) && PartsOf(crt0, symbols, section, align, partition).Encodable()) <==>
        && (|| section == Missing
            || (section.Relocations?
                && forall i :: 0 <= i < n ==>
                     section.entries[i].info % 256 == 2 && section.entries[i].offset < 0x1_0000_0000))
        && symbols.start < 0x1_0000_0000 && symbols.romSize < 0x1_0000_0000 && symbols.gotSize < 0x1_0000_0000
        && symbols.dataSize < 0x1_0000_0000 && symbols.bssSize < 0x1_0000_0000
        && |crt0| + 8 + 4 * n + TextAlignment(|crt0| + 8 + 4 * n, align) + |partition| + 28 <= 0xFFFF_FFE0
  {
    hide *;
    ExportableExact(section);
    if Exportable(section) {
      BuiltParts(crt0, symbols, section, align, partition);
      EncodableExact(PartsOf(crt0, symbols, section, align, partition));
      EntriesFit(section);
    }
  }

  lemma EntriesFit(section: RelocSection)
    requires Exportable(section)
    ensures section == Missing || section.Relocations?
  {
  }

  /** The file of the parts, if there is one. */
  function BuiltFile(crt0: seq<byte>, symbols: Symbols, section: RelocSection, align: int, partition: seq<byte>)
    : Option<seq<byte>>
  {
    if 0 <= align && Exportable(section) && PartsOf(crt0, symbols, section, align, partition).Encodable() then
      Some(File(PartsOf(crt0, symbols, section, align, partition)))
    else None
  }

  /** The script: a file for every section without addends whose relocations are absolute, for a
      requested alignment that is not negative, and for sizes that fit their words; no file
      otherwise. The file is given by its bytes; `pad` is the number of zeros in front of the
      partition. */
  method BuildFae(crt0: seq<byte>, symbols: Symbols, section: RelocSection, align: int, partition: seq<byte>)
    returns (file: Option<seq<byte>>, ghost pad: nat)
    ensures align <= 0 ==> pad == 0
    ensures align > 0 ==>
      var header := |crt0| + 8 + 4 * if section.Relocations? then |section.entries| else 0;
      var r, x, y := header + pad, header + align - 1, align - 1;
      && pad < align && (forall i: nat :: Bit(r, i) == (Bit(x, i) && !Bit(y, i)))
      && (IsPow2(align) ==> r % align == 0)
    ensures var n := if section.Relocations? then |section.entries| else 0;
      file.Some? <==>
        && 0 <= align
        && (|| section == Missing
            || (section.Relocations?
                && forall i :: 0 <= i < n ==>
                     section.entries[i].info % 256 == 2 && section.entries[i].offset < 0x1_0000_0000))
        && symbols.start < 0x1_0000_0000 && symbols.romSize < 0x1_0000_0000 && symbols.gotSize < 0x1_0000_0000
        && symbols.dataSize < 0x1_0000_0000 && symbols.bssSize < 0x1_0000_0000
        && |crt0| + 8 + 4 * n + pad + |partition| + 28 <= 0xFFFF_FFE0
    ensures file.Some? ==>
      var f, h, n := file.value, |crt0|, if section.Relocations? then |section.entries| else 0;
      && h + 8 + 4 * n <= |f| && f[..h] == crt0 && WordOf(f, h) == |f| && WordOf(f, h + 4) == n
      && forall i :: 0 <= i < n ==> WordOf(f, h + 8 + 4 * i) == section.entries[i].offset
    ensures file.Some? ==>
      var f, t := file.value, |crt0| + 8 + 4 * if section.Relocations? then |section.entries| else 0;
      var at, end := t + pad, t + pad + |partition|;
      && end + 28 <= |f| < end + 60 && |f| % 32 == 0 && f[at..end] == partition
      && (forall i :: t <= i < at ==> f[i] == 0) && forall i :: end <= i < |f| - 28 ==> f[i] == 0xff
    ensures file.Some? ==>
      var f, e := file.value, |file.value|;
      && e >= 28 && WordOf(f, e - 28) == symbols.bssSize && WordOf(f, e - 24) == symbols.gotSize
      && WordOf(f, e - 20) == symbols.romSize && WordOf(f, e - 16) == symbols.dataSize
      && WordOf(f, e - 12) == symbols.start && WordOf(f, e - 8) == |crt0| && f[e - 4..] == [0x12, 0xDE, 0xCA, 0xFA]
    ensures file == BuiltFile(crt0, symbols, section, align, partition)
  {
    hide TableOf, Exportable, WordOf, File, Parts.Encodable, TextAlignment, IsPow2, Bit, PartsOf;
    pad := 0;
    file := None;
    if align < 0 {
      return;
    }
    ghost var header := |crt0| + 8 + 4 * if section.Relocations? then |section.entries| else 0;
    TextAlignmentExact(header, align);
    BuildableExact(crt0, symbols, section, align, partition);
    pad := TextAlignment(header, align);
    file := Build(crt0, symbols, section, align, partition);
    if file.Some? {
      BuiltBytes(crt0, symbols, section, align, partition, file.value,
                 if section.Relocations? then |section.entries| else 0, pad);
    }
  }

  /** The script once the command line is accepted. */
  method Build(crt0: seq<byte>, symbols: Symbols, section: RelocSection, align: nat, partition: seq<byte>)
    returns (file: Option<seq<byte>>)
    ensures file.Some? <==> Exportable(section) && PartsOf(crt0, symbols, section, align, partition).Encodable()
    ensures file.Some? ==> file.value == File(PartsOf(crt0, symbols, section, align, partition))
  {
    hide Exportable, WordOf, Concat, File, TextAlignment, Parts.Encodable;
    var relocation := new ByteArray();
    var ok := ExportRelocationTable(section, relocation);
    if !ok {
      return None;
    }
    ghost var table := TableOf(section);
    assert relocation.bytes == Concat(table);
    var alignText := TextAlignment(|crt0| + 4 + |relocation.bytes|, align);
    var to := new ByteArray();
    ok := ConcatenateAndPad(crt0, symbols, relocation.bytes, table, alignText, partition, to);
    return if ok then Some(to.bytes) else None;
  }
}
