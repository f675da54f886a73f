/** Builder, reader and loader agree on one another's files. */
module Agreement {
  import opened Words
  import opened Masks
  import opened Memories
  import opened Crt0
  import opened Fae
  import opened Builder
  import opened Linked
  import opened Reader

  // ----- Reader on built files -----

  lemma BuiltFooterRead(b: Parts, k: nat)
    requires b.Encodable() && k < 7
    ensures GetWord(File(b), 4 * k - 28) == FooterWords(b)[k]
  {
    FooterWordAt(b, k);
    hide *;
    WordRead(File(b), b.Size() - FOOTER_SIZE + 4 * k, FooterWords(b)[k]);
    NegativeRead(File(b), 4 * k - 28);
  }

  lemma WordRead(f: seq<byte>, o: nat, w: word)
    requires o + 4 <= |f| && f[o..o + 4] == ToWord(w)
    ensures GetWord(f, o) == w
  {
    GetWordFull(f, o);
    hide GetWord;
    assert f[o] == ToWord(w)[0] && f[o + 1] == ToWord(w)[1] && f[o + 2] == ToWord(w)[2] && f[o + 3] == ToWord(w)[3] by {
      hide ToWord;
      assert f[o..o + 4][0] == f[o] && f[o..o + 4][1] == f[o + 1];
      assert f[o..o + 4][2] == f[o + 2] && f[o..o + 4][3] == f[o + 3];
    }
    FromLEOfBytes(w);
  }

  lemma NegativeRead(f: seq<byte>, start: int)
    requires -|f| <= start <= -4
    ensures GetWord(f, start) == GetWord(f, |f| + start)
  {
    GetWordFull(f, start);
    GetWordFull(f, |f| + start);
  }

  lemma BuiltHeaderRead(b: Parts)
    requires b.Encodable() && b.table != [] && b.table[0] == |b.table| - 1
    ensures GetWord(File(b), |b.crt0|) == b.Size()
    ensures GetWord(File(b), |b.crt0| + 4) == |b.table| - 1
    ensures GetWord(File(b), -8) == |b.crt0| && TableEndIn(File(b), |b.crt0|) == b.Header()
    ensures GetWord(File(b), -4) == Fae.MAGIC
  {
    FileParts(b);
    TableWordAt(b, 0);
    BuiltFooterRead(b, 5);
    BuiltFooterRead(b, 6);
    hide ToWord, Concat, File, GetWord;
    WordRead(File(b), |b.crt0|, b.Size());
    WordRead(File(b), |b.crt0| + 4, b.table[0]);
  }

  /** Every word the reader looks at is the builder's. */
  lemma BuiltWordsRead(b: Parts)
    requires b.Encodable() && b.table != [] && b.table[0] == |b.table| - 1
    ensures var f := File(b);
      && |f| == b.Size() && GetWord(f, -4) == Fae.MAGIC && GetWord(f, -8) == |b.crt0|
      && GetWord(f, -12) == b.symbols.start && GetWord(f, -16) == b.symbols.dataSize
      && GetWord(f, -20) == b.symbols.romSize && GetWord(f, -24) == b.symbols.gotSize
      && GetWord(f, -28) == b.symbols.bssSize
      && GetWord(f, |b.crt0|) == b.Size() && GetWord(f, |b.crt0| + 4) == |b.table| - 1
      && TableEndIn(f, |b.crt0|) == b.Header()
    ensures |b.crt0| + 4 + 4 * |b.table| == b.Header() && b.Header() + 28 <= b.Size()
  {
    SizesInOrder(b);
    FooterNamed(b);
    hide *;
    BuiltHeaderRead(b);
    BuiltFooterRead(b, 0);
    BuiltFooterRead(b, 1);
    BuiltFooterRead(b, 2);
    BuiltFooterRead(b, 3);
    BuiltFooterRead(b, 4);
  }

  lemma SizesInOrder(b: Parts)
    ensures |b.crt0| + 4 + 4 * |b.table| == b.Header() && b.Header() + 28 <= b.Size()
  {
    hide Padding;
  }

  lemma FooterNamed(b: Parts)
    requires b.Encodable()
    ensures var ws := FooterWords(b);
      && ws[0] == b.symbols.bssSize && ws[1] == b.symbols.gotSize && ws[2] == b.symbols.romSize
      && ws[3] == b.symbols.dataSize && ws[4] == b.symbols.start && ws[5] == |b.crt0| && ws[6] == Fae.MAGIC
  {
  }

  /** A built file passes the reader exactly when it has a crt0 and a nonempty .rom, the
      entry point is not behind .rom, and the sizes stay below the file's. With a crt0 its
      header is always fine, so the reader never runs off its end. */
  lemma BuiltFileRead(b: Parts)
    requires b.Encodable() && b.table != [] && b.table[0] == |b.table| - 1
    ensures HeaderFine(File(b)) <==> b.crt0 != []
    ensures HeaderFine(File(b)) && SizesFine(File(b)) <==>
      && b.crt0 != [] && 0 < b.symbols.romSize && b.symbols.start <= b.symbols.romSize
      && b.symbols.romSize < b.Size() && b.symbols.dataSize < b.Size() && b.symbols.gotSize < b.Size()
  {
    assert b.crt0 == [] <==> |b.crt0| == 0;
    assert |b.table| >= 1;
    hide File, GetWord, TableEndIn, Parts.Size, Parts.Header, Parts.Encodable;
    BuiltWordsRead(b);
  }

  /** Which complaint is made of a built file, in terms of its parts. */
  lemma BuiltFileComplaint(b: Parts, r: Reading)
    requires b.Encodable() && b.table != [] && b.table[0] == |b.table| - 1 && ReadsAs(File(b), r)
    ensures var s, n := b.symbols, |File(b)|;
      if |b.crt0| == 0 then r == Crt0SizeZero
      else if s.start >= n then r == EntrypointTooLarge
      else if s.dataSize >= n then r == RomRamTooLarge
      else if s.romSize >= n then r == RomTooLarge
      else if 0 < s.romSize < s.start then r == EntrypointOutsideRom
      else if s.gotSize >= n then r == GotTooLarge
      else if s.romSize == 0 then r == NameError
      else r.Accepted?
  {
    hide *;
    SizeAbove(b);
    BuiltHeaderRead(b);
    FileFooterExact(b);
    var f, n, h, count := File(b), b.Size(), |b.crt0|, |b.table| - 1;
    assert |f| == n > 36 && h + 8 + 4 * count < n && h < n;
    assert h == WordOf(f, n - 8) && n == GetWord(f, h) && count == GetWord(f, h + 4);
    MagicWord(f);
    ReadingExact(f, r, h, n, count);
  }

  lemma MagicWord(f: seq<byte>)
    requires |f| >= 4 && f[|f| - 4..] == [0x12, 0xDE, 0xCA, 0xFA]
    ensures WordOf(f, |f| - 4) == 0xFACADE12
  {
    var s := f[|f| - 4..];
    assert s[0] == 0x12 && s[1] == 0xDE && s[2] == 0xCA && s[3] == 0xFA;
    WordOfValue(f, |f| - 4);
  }

  lemma SizeAbove(b: Parts)
    requires b.table != []
    ensures b.Size() > 36 && b.Size() >= |b.crt0| + 4 + 4 * |b.table| + 28
  {
    SizeCovers(b);
    hide Parts.Size;
  }

  /** The report on a built file is the builder's own data; it puts the partition where it
      is exactly when the byte there is not zero. */
  lemma BuiltFileReport(b: Parts)
    requires b.Encodable() && b.table != [] && b.table[0] == |b.table| - 1
    ensures b.Header() <= |File(b)| && TableEndIn(File(b), GetWord(File(b), -8)) == b.Header()
    ensures var r := ReportOf(File(b));
      && r.crt0Size == |b.crt0| && r.relocations == |b.table| - 1
      && r.entrypoint == b.symbols.start && r.romRamSize == b.symbols.dataSize && r.romSize == b.symbols.romSize
      && r.gotSize == b.symbols.gotSize && r.ramSize == b.symbols.bssSize
      && r.partitionAt == b.Header() + r.alignText
      && (r.partitionAt == b.PartitionAt() && r.alignText == b.pad <==> File(b)[b.PartitionAt()] != 0)
  {
    BuiltWordsRead(b);
    SkipFindsPartition(b);
    hide File, GetWord, FirstNonZero, TableEndIn, Parts.Size, Parts.Header, Parts.Encodable;
    assert b.PartitionAt() == b.Header() + b.pad;
  }

  /** Files made from a well-formed program whose entry point is in its nonempty .rom and
      that has a crt0 are accepted. */
  lemma WellFormedAccepted(b: Parts)
    requires WellFormed(b) && b.crt0 != [] && 0 < b.symbols.romSize && b.symbols.start <= b.symbols.romSize
    ensures HeaderFine(File(b)) && SizesFine(File(b))
    ensures b.Header() <= |File(b)| && TableEndIn(File(b), GetWord(File(b), -8)) == b.Header()
    ensures ReportOf(File(b)).partitionAt == b.PartitionAt() && ReportOf(File(b)).alignText == b.pad
  {
    BuiltFileRead(b);
    BuiltFileReport(b);
    SkipFindsPartition(b);
    hide File, HeaderFine, SizesFine, ReportOf, GetWord, TableEndIn;
  }

  // ----- Reader and loader -----

  /** Which nonzero byte bounds a scan does not matter. */
  lemma {:induction false} SkipStopIrrelevant(m: Memory, a: word, stop: word, stop': word)
    requires m[stop] != 0 && m[stop'] != 0
    ensures SkipZeros(m, a, stop) == SkipZeros(m, a, stop')
    decreases Sub(stop, a)
  {
    if m[a] != 0 {
    } else {
      SkipStopIrrelevant(m, Add(a, 1), stop, stop');
    }
  }

  lemma FileWord(m: Memory, base: word, f: seq<byte>, o: nat)
    requires base + |f| < SPACE && m[base..base + |f|] == f && o + 4 <= |f|
    ensures WordAt(m, base + o) == GetWord(f, o)
  {
    GetWordFull(f, o);
    hide GetWord;
    var s := m[base..base + |f|];
    assert m[base + o] == s[o] && m[base + o + 1] == s[o + 1];
    assert m[base + o + 2] == s[o + 2] && m[base + o + 3] == s[o + 3];
  }

  lemma FileFooter(m: Memory, base: word, f: seq<byte>, start: int)
    requires base + |f| < SPACE && m[base..base + |f|] == f && -|f| <= start <= -4
    ensures WordAt(m, base + |f| + start) == GetWord(f, start)
  {
    NegativeRead(f, start);
    FileWord(m, base, f, |f| + start);
  }

  /** Any file with a fine header, built or not, is the same to the loader, once it knows
      the crt0 size the reader found: the same end, magic number, table and partition. */
  lemma ReaderLoaderAgree(f: seq<byte>, m: Memory, e: Env)
    requires HeaderFine(f) && e.metadataOff == GetWord(f, -8)
    requires e.binBase + |f| < SPACE && m[e.binBase..e.binBase + |f|] == f
    ensures MagicOk(m, e) && EndAt(m, e) == e.binBase + |f|
    ensures EntryCount(m, e) == ReportOf(f).relocations
    ensures RomAt(m, e) == e.binBase + ReportOf(f).partitionAt
    ensures Footer(m, e, 12) == ReportOf(f).entrypoint && Footer(m, e, 16) == ReportOf(f).romRamSize
    ensures Footer(m, e, 20) == ReportOf(f).romSize && Footer(m, e, 24) == ReportOf(f).gotSize
    ensures Footer(m, e, 28) == ReportOf(f).ramSize
  {
    hide GetWord, WordAt, MagicOk, RomAt, TableEnd, TableEndIn, FirstNonZero, Sub;
    EndAgrees(f, m, e);
    TableAgrees(f, m, e);
    RomAgrees(f, m, e);
    FooterAgrees(f, m, e, 12);
    FooterAgrees(f, m, e, 16);
    FooterAgrees(f, m, e, 20);
    FooterAgrees(f, m, e, 24);
    FooterAgrees(f, m, e, 28);
  }

  lemma FooterAgrees(f: seq<byte>, m: Memory, e: Env, k: int)
    requires HeaderFine(f) && e.metadataOff == GetWord(f, -8) && 4 <= k <= 28
    requires e.binBase + |f| < SPACE && m[e.binBase..e.binBase + |f|] == f
    ensures Footer(m, e, k) == GetWord(f, -k)
  {
    EndAgrees(f, m, e);
    HeaderInFile(f);
    hide GetWord, WordAt, MagicOk, EndAt, HeaderFine;
    FileFooter(m, e.binBase, f, -k);
  }

  lemma RomAgrees(f: seq<byte>, m: Memory, e: Env)
    requires HeaderFine(f) && e.metadataOff == GetWord(f, -8)
    requires e.binBase + |f| < SPACE && m[e.binBase..e.binBase + |f|] == f
    ensures MagicOk(m, e) && RomAt(m, e) == e.binBase + FirstNonZero(f, TableEndIn(f, GetWord(f, -8)))
  {
    hide *;
    EndAgrees(f, m, e);
    TableAgrees(f, m, e);
    HeaderInFile(f);
    ScanStarts(m, e);
    var t, last := TableEndIn(f, GetWord(f, -8)), |f| - 1;
    SkipInFile(m, e.binBase, f, t, last);
    SkipStopIrrelevant(m, TableEnd(m, e), Sub(EndAt(m, e), 4), e.binBase + last);
  }

  lemma HeaderInFile(f: seq<byte>)
    requires HeaderFine(f)
    ensures |f| > 36 && TableEndIn(f, GetWord(f, -8)) <= |f| - 1 && f[|f| - 1] != 0
  {
    LastByteOfMagic(f);
    hide GetWord;
  }

  lemma ScanStarts(m: Memory, e: Env)
    requires MagicOk(m, e)
    ensures m[Sub(EndAt(m, e), 4)] != 0 && RomAt(m, e) == SkipZeros(m, TableEnd(m, e), Sub(EndAt(m, e), 4))
  {
    MagicStopsSkip(m, e);
    hide EndAt, TableEnd, SkipZeros;
  }

  lemma EndAgrees(f: seq<byte>, m: Memory, e: Env)
    requires HeaderFine(f) && e.metadataOff == GetWord(f, -8)
    requires e.binBase + |f| < SPACE && m[e.binBase..e.binBase + |f|] == f
    ensures MagicOk(m, e) && EndAt(m, e) == e.binBase + |f|
  {
    hide GetWord, WordAt;
    FileWord(m, e.binBase, f, GetWord(f, -8));
    FileFooter(m, e.binBase, f, -4);
  }

  lemma TableAgrees(f: seq<byte>, m: Memory, e: Env)
    requires HeaderFine(f) && e.metadataOff == GetWord(f, -8)
    requires e.binBase + |f| < SPACE && m[e.binBase..e.binBase + |f|] == f
    ensures EntryCount(m, e) == GetWord(f, GetWord(f, -8) + 4)
    ensures TableEnd(m, e) == e.binBase + TableEndIn(f, GetWord(f, -8))
  {
    FileWord(m, e.binBase, f, GetWord(f, -8) + 4);
    hide GetWord, WordAt;
  }

  // ----- Inputs of the builder -----

  /** What the script puts together always carries a table that counts itself, and with a
      word-sized crt0 and no alignment or a power of two the partition is word-aligned, on
      the boundary asked for. */
  lemma BuiltPartsAligned(crt0: seq<byte>, symbols: Symbols, section: RelocSection, align: nat, partition: seq<byte>)
    requires Exportable(section) && |crt0| % 4 == 0 && (align == 0 || IsPow2(align))
    ensures var b := PartsOf(crt0, symbols, section, align, partition);
      && b.table != [] && b.table[0] == |b.table| - 1
      && b.PartitionAt() % 4 == 0 && (align > 0 ==> b.PartitionAt() % align == 0)
  {
    var b := PartsOf(crt0, symbols, section, align, partition);
    PartitionWordAligned(|crt0|, |b.table|, align);
    if align > 0 {
      TextAlignmentMinimal(b.Header(), align);
    }
  }
}
