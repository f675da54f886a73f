/** Build, then load: what the loader finds in a built file, and the memory it leaves
    compared with the memory the linker had in mind. */
module Linked {
  import opened Words
  import opened Memories
  import opened Images
  import opened Crt0
  import opened Fae

  // ----- Well-formed inputs -----

  function Total(b: Parts): nat {
    |b.partition| + b.symbols.bssSize
  }

  function RamNeed(b: Parts): nat {
    b.symbols.gotSize + b.symbols.dataSize + b.symbols.bssSize
  }

  /** The RAM that is written, whole words of .ram included. */
  function RamTouch(b: Parts): (n: nat)
    ensures RamNeed(b) <= n < RamNeed(b) + 4
  {
    b.symbols.gotSize + b.symbols.dataSize + Up4(b.symbols.bssSize)
  }

  function SlotCount(b: Parts): nat
    requires b.table != []
  {
    |b.table| - 1
  }

  /** The symbols describe the partition, the partition does not start with a zero byte,
      and a listed pointer lies in the partition or not in the image at all. */
  ghost predicate WellFormed(b: Parts) {
    && b.Encodable()
    && |b.partition| == b.symbols.romSize + b.symbols.gotSize + b.symbols.dataSize
    && b.partition != [] && b.partition[0] != 0
    && b.symbols.gotSize % 4 == 0
    && b.table != [] && b.table[0] == |b.table| - 1
    && forall i :: 0 < i < |b.table| ==> b.table[i] as int + 4 <= |b.partition| || b.table[i] >= Total(b)
  }

  /** Memory as the linker sees it, from offset 0: the partition, then zeros. */
  function LinkMemory(b: Parts): (l: seq<byte>)
    ensures |l| == Total(b)
  {
    b.partition + Zeros(b.symbols.bssSize)
  }

  function LinkWord(b: Parts, o: nat): word
    requires o + 4 <= |b.partition|
  {
    FromLE(b.partition[o], b.partition[o + 1], b.partition[o + 2], b.partition[o + 3])
  }

  function GotWords(b: Parts): (ws: seq<word>)
    requires WellFormed(b)
    ensures 4 * |ws| == b.symbols.gotSize
    ensures forall i :: 0 <= i < |ws| ==> ws[i] == LinkWord(b, b.symbols.romSize + 4 * i)
  {
    seq(b.symbols.gotSize / 4, i requires 0 <= i < b.symbols.gotSize / 4 => LinkWord(b, b.symbols.romSize + 4 * i))
  }

  /** The link-time value of a listed pointer; none is recorded outside .rom.ram. */
  function LinkTarget(b: Parts, slot: word): word
    requires WellFormed(b) && (slot as int + 4 <= |b.partition| || slot >= Total(b))
  {
    if b.symbols.romSize + b.symbols.gotSize <= slot < Total(b) then LinkWord(b, slot) else 0
  }

  function LinkTargets(b: Parts): (ws: seq<word>)
    requires WellFormed(b)
    ensures |ws| == SlotCount(b) && forall i :: 0 <= i < |ws| ==> ws[i] == LinkTarget(b, b.table[i + 1])
  {
    seq(|b.table| - 1, i requires 0 <= i < |b.table| - 1 => LinkTarget(b, b.table[i + 1]))
  }

  /** The image the linker and the builder mean. */
  function LinkImage(b: Parts): Image
    requires WellFormed(b)
  {
    Image(b.symbols.romSize, GotWords(b), b.partition[b.symbols.romSize + b.symbols.gotSize..],
          b.symbols.bssSize, b.table[1..], LinkTargets(b))
  }

  lemma LinkImageSizes(b: Parts)
    requires WellFormed(b)
    ensures var img := LinkImage(b);
      && img.Valid() && img.romSize == b.symbols.romSize && img.GotSize() == b.symbols.gotSize
      && img.DataAt() == b.symbols.romSize + b.symbols.gotSize && img.BssAt() == |b.partition|
      && img.Total() == Total(b) && img.RamSize() == RamNeed(b) && img.RamSpan() == RamTouch(b)
  {
    var img := LinkImage(b);
    forall i | 0 <= i < |img.slots| && img.DataAt() <= img.slots[i] < img.Total()
      ensures img.slots[i] as int + 4 <= img.Total()
    {
      assert img.slots[i] == b.table[i + 1];
    }
  }

  /** No pointer goes wrong: every GOT entry is an offset into the image, and every listed
      pointer lies in .rom.ram and holds an offset into the image, though not into the GOT. */
  ghost predicate FaultFree(b: Parts)
    requires WellFormed(b)
  {
    var got, data := b.symbols.romSize, b.symbols.romSize + b.symbols.gotSize;
    && (forall i :: 0 <= i < b.symbols.gotSize / 4 ==> LinkWord(b, got + 4 * i) < Total(b))
    && forall i :: 0 < i < |b.table| ==>
         && data <= b.table[i] && b.table[i] as int + 4 <= |b.partition|
         && LinkWord(b, b.table[i]) < Total(b) && !(got <= LinkWord(b, b.table[i]) < data)
  }

  /** Two listed pointers are the same or do not overlap. */
  ghost predicate Distinct(b: Parts) {
    forall i, j :: 0 < i < |b.table| && 0 < j < |b.table| ==>
      b.table[i] == b.table[j] || Apart(b.table[i], 4, b.table[j], 4)
  }

  /** These are exactly the loader's conditions. */
  lemma FaultFreeExact(b: Parts)
    requires WellFormed(b)
    ensures LinkImage(b).Valid() && (FaultFree(b) <==> Verdict(LinkImage(b)) == None)
  {
    hide Verdict, LinkImage, LinkWord, WellFormed, Image.DataAt, Image.Total, Image.Valid;
    LinkImageSizes(b);
    VerdictExact(LinkImage(b));
    GotFaultFree(b);
    SlotsFaultFree(b);
  }

  lemma GotFaultFree(b: Parts)
    requires WellFormed(b)
    ensures (forall i :: 0 <= i < b.symbols.gotSize / 4 ==> LinkWord(b, b.symbols.romSize + 4 * i) < Total(b)) <==>
      forall i :: 0 <= i < |LinkImage(b).got| ==> LinkImage(b).got[i] < LinkImage(b).Total()
  {
    LinkImageSizes(b);
    var img := LinkImage(b);
    assert |img.got| == b.symbols.gotSize / 4;
    hide LinkWord, LinkTargets;
    assert forall i :: 0 <= i < |img.got| ==> img.got[i] == LinkWord(b, b.symbols.romSize + 4 * i);
    if forall i :: 0 <= i < |img.got| ==> img.got[i] < img.Total() {
      forall i | 0 <= i < b.symbols.gotSize / 4
        ensures LinkWord(b, b.symbols.romSize + 4 * i) < Total(b)
      {
        assert img.got[i] < img.Total();
      }
    }
  }

  lemma SlotsFaultFree(b: Parts)
    requires WellFormed(b)
    ensures LinkImage(b).Valid()
    ensures
      (forall i :: 0 < i < |b.table| ==>
         && b.symbols.romSize + b.symbols.gotSize <= b.table[i] && b.table[i] as int + 4 <= |b.partition|
         && LinkWord(b, b.table[i]) < Total(b)
         && !(b.symbols.romSize <= LinkWord(b, b.table[i]) < b.symbols.romSize + b.symbols.gotSize)) <==>
      (var img := LinkImage(b);
       forall i :: 0 <= i < |img.slots| ==>
         && img.DataAt() <= img.slots[i] < img.Total() && img.targets[i] < img.Total()
         && !(img.romSize <= img.targets[i] < img.DataAt()))
  {
    hide LinkWord, LinkImage, LinkTargets, Image.DataAt, Image.Total, Image.Valid;
    LinkImageSizes(b);
    LinkSlots(b);
    var img := LinkImage(b);
    forall i | 0 < i < |b.table|
      ensures img.slots[i - 1] == b.table[i] && img.targets[i - 1] == LinkTarget(b, b.table[i])
    {
    }
  }

  lemma LinkSlots(b: Parts)
    requires WellFormed(b)
    ensures var img := LinkImage(b);
      && |img.slots| == |img.targets| == SlotCount(b)
      && forall i :: 0 <= i < |img.slots| ==>
           img.slots[i] == b.table[i + 1] && img.targets[i] == LinkTarget(b, b.table[i + 1])
  {
    hide GotWords, LinkTarget;
  }

  lemma DistinctSeparate(b: Parts)
    requires WellFormed(b) && Distinct(b)
    ensures LinkImage(b).Valid() && Separate(LinkImage(b))
  {
    LinkImageSizes(b);
    var img := LinkImage(b);
    forall i, j | 0 <= i < |img.slots| && 0 <= j < |img.slots|
      ensures Compatible(img, i, j)
    {
      assert img.slots[i] == b.table[i + 1] && img.slots[j] == b.table[j + 1];
      assert img.targets[i] == LinkTarget(b, b.table[i + 1]) && img.targets[j] == LinkTarget(b, b.table[j + 1]);
      hide LinkTarget, GotWords, LinkTargets, LinkImage, WellFormed;
    }
  }

  /** Pointers on word boundaries never overlap. */
  lemma AlignedSlotsDistinct(b: Parts)
    requires forall i :: 0 < i < |b.table| ==> b.table[i] % 4 == 0
    ensures Distinct(b)
  {
  }

  // ----- A built file in flash -----

  /** The file of b is in memory at bin_base, below the end of the address space, and the
      loader inside it knows its own length. */
  ghost predicate InFlash(b: Parts, m: Memory, e: Env)
    requires b.Encodable()
  {
    && e.metadataOff == |b.crt0|
    && e.binBase + b.Size() < SPACE && m[e.binBase..e.binBase + b.Size()] == File(b)
  }

  /** It is there, apart from the RAM it needs, which the address space can hold. */
  ghost predicate Programmed(b: Parts, m: Memory, e: Env)
    requires b.Encodable()
  {
    && InFlash(b, m, e)
    && e.ramStart + RamTouch(b) < SPACE
    && Apart(e.binBase, b.Size(), e.ramStart, RamTouch(b))
  }

  lemma ProgrammedInFlash(b: Parts, m: Memory, e: Env)
    requires WellFormed(b) && Programmed(b, m, e)
    ensures b.Encodable() && InFlash(b, m, e) && b.table != [] && b.table[0] == |b.table| - 1
    ensures b.partition != [] && b.partition[0] != 0
  {
  }

  function PlaceFor(b: Parts, e: Env): Place {
    Place(e.binBase + b.PartitionAt(), e.ramStart)
  }

  lemma WordInFile(m: Memory, base: word, f: seq<byte>, o: nat, w: word)
    requires base + |f| <= SPACE && m[base..base + |f|] == f && o + 4 <= |f|
    requires f[o..o + 4] == ToWord(w)
    ensures WordAt(m, base + o) == w
  {
    var s := m[base..base + |f|];
    assert m[base + o] == s[o] && m[base + o + 1] == s[o + 1];
    assert m[base + o + 2] == s[o + 2] && m[base + o + 3] == s[o + 3];
    assert f[o..o + 4][0] == f[o] && f[o..o + 4][1] == f[o + 1];
    assert f[o..o + 4][2] == f[o + 2] && f[o..o + 4][3] == f[o + 3];
    FromLEOfBytes(w);
  }

  lemma FooterFound(b: Parts, m: Memory, e: Env, k: nat)
    requires b.Encodable() && InFlash(b, m, e) && k < 7
    ensures WordAt(m, e.binBase + b.Size() - 28 + 4 * k) == FooterWords(b)[k]
  {
    FooterWordAt(b, k);
    hide WordAt, ToWord, File, FooterWords;
    WordInFile(m, e.binBase, File(b), b.Size() - 28 + 4 * k, FooterWords(b)[k]);
  }

  lemma TableFound(b: Parts, m: Memory, e: Env, i: nat)
    requires b.Encodable() && InFlash(b, m, e) && i < |b.table|
    ensures WordAt(m, e.binBase + |b.crt0| + 4 + 4 * i) == b.table[i]
  {
    TableWordAt(b, i);
    hide WordAt, ToWord, File;
    WordInFile(m, e.binBase, File(b), |b.crt0| + 4 + 4 * i, b.table[i]);
  }

  lemma SizeFound(b: Parts, m: Memory, e: Env)
    requires b.Encodable() && InFlash(b, m, e)
    ensures MetaAt(e) == e.binBase + |b.crt0| && EndAt(m, e) == e.binBase + b.Size()
  {
    FileParts(b);
    hide WordAt, ToWord, File, Concat;
    WordInFile(m, e.binBase, File(b), |b.crt0|, b.Size());
  }

  /** The loader's footer reads return what the builder wrote, word by word. */
  lemma FooterRoundTrip(b: Parts, m: Memory, e: Env)
    requires b.Encodable() && InFlash(b, m, e)
    ensures MagicOk(m, e)
    ensures Footer(m, e, 28) == b.symbols.bssSize && Footer(m, e, 24) == b.symbols.gotSize
    ensures Footer(m, e, 20) == b.symbols.romSize && Footer(m, e, 16) == b.symbols.dataSize
    ensures Footer(m, e, 12) == b.symbols.start && Footer(m, e, 8) == |b.crt0|
  {
    SizeFound(b, m, e);
    FooterFound(b, m, e, 0);
    FooterFound(b, m, e, 1);
    FooterFound(b, m, e, 2);
    FooterFound(b, m, e, 3);
    FooterFound(b, m, e, 4);
    FooterFound(b, m, e, 5);
    FooterFound(b, m, e, 6);
    hide WordAt, File, EndAt;
  }

  lemma TableRoundTrip(b: Parts, m: Memory, e: Env)
    requires b.Encodable() && InFlash(b, m, e)
    requires b.table != [] && b.table[0] == |b.table| - 1
    ensures MetaAt(e) == e.binBase + |b.crt0| && EntryCount(m, e) == SlotCount(b)
    ensures TableEnd(m, e) == e.binBase + b.Header()
    ensures forall i :: 0 <= i < SlotCount(b) ==> SlotAt(m, e, i) == b.table[i + 1]
  {
    SizeFound(b, m, e);
    TableFound(b, m, e, 0);
    hide WordAt, File, EndAt, MetaAt;
    forall i | 0 <= i < SlotCount(b)
      ensures SlotAt(m, e, i) == b.table[i + 1]
    {
      SlotFound(b, m, e, i);
    }
  }

  lemma SlotFound(b: Parts, m: Memory, e: Env, i: nat)
    requires b.Encodable() && InFlash(b, m, e) && i + 1 < |b.table|
    ensures MetaAt(e) == e.binBase + |b.crt0| && SlotAt(m, e, i) == b.table[i + 1]
  {
    SizeFound(b, m, e);
    TableFound(b, m, e, i + 1);
    hide WordAt, File, EndAt, MetaAt;
  }

  /** For any parts at all, the loader looks for .rom at the first nonzero byte of the file
      after the table; that is the partition exactly when the byte there is not zero. */
  lemma RomRoundTrip(b: Parts, m: Memory, e: Env)
    requires b.Encodable() && InFlash(b, m, e)
    requires b.table != [] && b.table[0] == |b.table| - 1
    ensures MagicOk(m, e)
    ensures RomAt(m, e) == e.binBase + FirstNonZero(File(b), b.Header())
    ensures RomAt(m, e) == e.binBase + b.PartitionAt() <==> File(b)[b.PartitionAt()] != 0
  {
    hide *;
    SkipFindsPartition(b);
    LastByte(b);
    RomAtMagic(b, m, e);
    SkipInFile(m, e.binBase, File(b), b.Header(), b.Size() - 4);
  }

  /** The scan starts behind the table and is bounded by the magic number. */
  lemma RomAtMagic(b: Parts, m: Memory, e: Env)
    requires b.Encodable() && InFlash(b, m, e)
    requires b.table != [] && b.table[0] == |b.table| - 1
    ensures MagicOk(m, e) && |File(b)| == b.Size() && b.Size() >= 4 && e.binBase + b.Size() <= SPACE
    ensures m[e.binBase..e.binBase + b.Size()] == File(b)
    ensures m[e.binBase + b.Size() - 4] != 0
    ensures RomAt(m, e) == SkipZeros(m, e.binBase + b.Header(), e.binBase + b.Size() - 4)
  {
    SizeFound(b, m, e);
    FooterRoundTrip(b, m, e);
    TableRoundTrip(b, m, e);
    MagicStopsSkip(m, e);
    hide WordAt, File, TableEnd, EndAt, MagicOk, SkipZeros, Footer;
  }

  /** For any parts whose partition does not start with zero, whether their sizes describe
      it or not, the loader computes its sections from the builder's numbers. */
  lemma SectionsRoundTrip(b: Parts, m: Memory, e: Env)
    requires b.Encodable() && InFlash(b, m, e) && b.table != [] && b.table[0] == |b.table| - 1
    requires b.partition != [] && b.partition[0] != 0
    ensures MagicOk(m, e) && PlaceFor(b, e).rom < SPACE && RomAt(m, e) == PlaceFor(b, e).rom
    ensures SectionsOf(m, e) == MakeSections(e.binBase + b.PartitionAt(), b.symbols.romSize, b.symbols.gotSize,
                                             b.symbols.dataSize, b.symbols.bssSize, e.ramStart)
  {
    FooterRoundTrip(b, m, e);
    RomRoundTrip(b, m, e);
    SkipFindsPartition(b);
    hide Footer, MagicOk, File, RomAt;
  }

  // ----- What the loader makes of it -----

  /** Words of the partition read from flash are the linker's. */
  lemma PartitionWord(b: Parts, m: Memory, e: Env, o: nat)
    requires b.Encodable() && InFlash(b, m, e) && o + 4 <= |b.partition|
    ensures WordAt(m, PlaceFor(b, e).rom + o) == LinkWord(b, o)
  {
    PartitionByte(b, m, e, o);
    PartitionByte(b, m, e, o + 1);
    PartitionByte(b, m, e, o + 2);
    PartitionByte(b, m, e, o + 3);
  }

  lemma PartitionByte(b: Parts, m: Memory, e: Env, o: nat)
    requires b.Encodable() && InFlash(b, m, e) && o < |b.partition|
    ensures m[PlaceFor(b, e).rom + o] == b.partition[o]
  {
    FileParts(b);
    var f, at := File(b), b.PartitionAt();
    hide File, ToWord, Concat, FooterWords;
    assert f[at..b.Raw()][o] == f[at + o];
    assert m[e.binBase..e.binBase + b.Size()][at + o] == m[e.binBase + at + o];
  }

  lemma LayoutIsSound(b: Parts, m: Memory, e: Env)
    requires WellFormed(b) && Programmed(b, m, e)
    ensures MagicOk(m, e) && LayoutSound(m, e)
  {
    SectionsRoundTrip(b, m, e);
    TableRoundTrip(b, m, e);
    PartsInFile(b, m, e);
    hide WordAt, File, MagicOk, SectionsOf, SlotAt, EntryCount, MetaAt, TableEnd, SlotSound, WellFormed,
         Programmed, Parts.Size;
    forall i | 0 <= i < EntryCount(m, e)
      ensures SlotSound(SectionsOf(m, e), e, SlotAt(m, e, i))
    {
      SlotIsSound(b, m, e, i);
    }
  }

  /** Sizes and addresses, spelled out. */
  lemma PartsInFile(b: Parts, m: Memory, e: Env)
    requires WellFormed(b) && Programmed(b, m, e)
    ensures b.symbols.gotSize % 4 == 0
    ensures e.ramStart + RamTouch(b) < SPACE && |b.crt0| + 4 + 4 * |b.table| <= b.PartitionAt()
    ensures b.PartitionAt() + |b.partition| < b.Size() && e.binBase + b.Size() < SPACE
    ensures |b.partition| == b.symbols.romSize + b.symbols.gotSize + b.symbols.dataSize
    ensures Apart(e.binBase, b.Size(), e.ramStart, RamTouch(b))
  {
    hide File, Padding;
  }

  lemma SlotIsSound(b: Parts, m: Memory, e: Env, i: nat)
    requires WellFormed(b) && Programmed(b, m, e) && i < SlotCount(b)
    ensures MagicOk(m, e) && MetaAt(e) + 8 + 4 * i + 4 <= SPACE
    ensures SlotSound(SectionsOf(m, e), e, SlotAt(m, e, i))
  {
    SectionsRoundTrip(b, m, e);
    TableRoundTrip(b, m, e);
    PartsInFile(b, m, e);
    assert b.table[i + 1] as int + 4 <= |b.partition| || b.table[i + 1] >= Total(b);
    hide WordAt, File, MagicOk, SectionsOf, SlotAt, EntryCount, MetaAt, TableEnd, WellFormed, Programmed,
         Parts.Size;
  }

  lemma ImageRoundTrip(b: Parts, m: Memory, e: Env)
    requires WellFormed(b) && Programmed(b, m, e)
    ensures MagicOk(m, e) && LayoutSound(m, e)
    ensures ImageOf(m, e) == LinkImage(b) && PlaceOf(m, e) == PlaceFor(b, e)
  {
    LayoutIsSound(b, m, e);
    SectionsRoundTrip(b, m, e);
    GotRoundTrip(b, m, e);
    DataRoundTrip(b, m, e);
    SlotsRoundTrip(b, m, e);
    hide WordAt, File, MagicOk, SectionsOf, LayoutSound, RomAt, ImageOf;
    var img, link := ImageOf(m, e), LinkImage(b);
    assert img.romSize == link.romSize && img.bssSize == link.bssSize;
  }

  lemma GotRoundTrip(b: Parts, m: Memory, e: Env)
    requires WellFormed(b) && Programmed(b, m, e)
    ensures MagicOk(m, e) && LayoutSound(m, e)
    ensures var img := ImageOf(m, e);
      img.got == GotWords(b) && img.romSize == b.symbols.romSize && img.bssSize == b.symbols.bssSize
  {
    hide *;
    GotAsWords(b, m, e);
    var got := ImageOf(m, e).got;
    forall i | 0 <= i < |got|
      ensures got[i] == GotWords(b)[i]
    {
      GotWordFound(b, m, e, i);
    }
    assert got == GotWords(b);
  }

  lemma GotAsWords(b: Parts, m: Memory, e: Env)
    requires WellFormed(b) && Programmed(b, m, e)
    ensures MagicOk(m, e) && LayoutSound(m, e)
    ensures var img := ImageOf(m, e);
      && img.romSize == b.symbols.romSize && img.bssSize == b.symbols.bssSize && |img.got| == |GotWords(b)|
      && forall i :: 0 <= i < |img.got| ==>
           PlaceFor(b, e).rom + b.symbols.romSize + 4 * i < SPACE
           && img.got[i] == WordAt(m, PlaceFor(b, e).rom + b.symbols.romSize + 4 * i)
  {
    hide WordAt, MagicOk, SectionsOf, LayoutSound, ImageOf, RomAt, GotWords, Programmed;
    ProgrammedInFlash(b, m, e);
    LayoutIsSound(b, m, e);
    SectionsRoundTrip(b, m, e);
    ImageParts(m, e);
    ImageWords(m, e);
    hide WellFormed, Parts.PartitionAt;
  }

  lemma GotWordFound(b: Parts, m: Memory, e: Env, i: nat)
    requires WellFormed(b) && Programmed(b, m, e) && i < |GotWords(b)|
    ensures WordAt(m, PlaceFor(b, e).rom + b.symbols.romSize + 4 * i) == GotWords(b)[i]
  {
    hide WordAt, File, LinkWord, GotWords;
    ProgrammedInFlash(b, m, e);
    PartitionWord(b, m, e, b.symbols.romSize + 4 * i);
  }

  lemma DataRoundTrip(b: Parts, m: Memory, e: Env)
    requires WellFormed(b) && Programmed(b, m, e)
    ensures MagicOk(m, e) && LayoutSound(m, e)
    ensures ImageOf(m, e).data == b.partition[b.symbols.romSize + b.symbols.gotSize..]
  {
    hide *;
    ProgrammedInFlash(b, m, e);
    DataAsBytes(b, m, e);
    var data, at := ImageOf(m, e).data, b.symbols.romSize + b.symbols.gotSize;
    forall i | 0 <= i < |data|
      ensures data[i] == b.partition[at..][i]
    {
      PartitionByte(b, m, e, at + i);
    }
  }

  lemma DataAsBytes(b: Parts, m: Memory, e: Env)
    requires WellFormed(b) && Programmed(b, m, e)
    ensures MagicOk(m, e) && LayoutSound(m, e)
    ensures var data, at := ImageOf(m, e).data, b.symbols.romSize + b.symbols.gotSize;
      && b.Encodable() && at + |data| == |b.partition|
      && forall i :: 0 <= i < |data| ==>
           PlaceFor(b, e).rom + (at + i) < SPACE && data[i] == m[PlaceFor(b, e).rom + (at + i)]
  {
    hide WordAt, MagicOk, SectionsOf, LayoutSound, ImageOf, RomAt, Programmed;
    ProgrammedInFlash(b, m, e);
    LayoutIsSound(b, m, e);
    SectionsRoundTrip(b, m, e);
    ImageParts(m, e);
    hide Parts.PartitionAt;
  }

  lemma SlotsRoundTrip(b: Parts, m: Memory, e: Env)
    requires WellFormed(b) && Programmed(b, m, e)
    ensures MagicOk(m, e) && LayoutSound(m, e)
    ensures ImageOf(m, e).slots == b.table[1..] && ImageOf(m, e).targets == LinkTargets(b)
  {
    hide WordAt, MagicOk, SectionsOf, LayoutSound, ImageOf, TargetOf, LinkTargets, LinkTarget, EntryCount, MetaAt,
         TableEnd, Programmed, SlotAt;
    ProgrammedInFlash(b, m, e);
    LayoutIsSound(b, m, e);
    ImageWords(m, e);
    TableRoundTrip(b, m, e);
    var img := ImageOf(m, e);
    forall i | 0 <= i < |img.slots|
      ensures img.slots[i] == b.table[i + 1] && img.targets[i] == LinkTargets(b)[i]
    {
      TargetRoundTrip(b, m, e, b.table[i + 1]);
    }
    assert img.slots == b.table[1..];
  }

  lemma TargetRoundTrip(b: Parts, m: Memory, e: Env, slot: word)
    requires WellFormed(b) && Programmed(b, m, e)
    requires slot as int + 4 <= |b.partition| || slot >= Total(b)
    ensures MagicOk(m, e) && TargetOf(m, SectionsOf(m, e), slot) == LinkTarget(b, slot)
  {
    SectionsRoundTrip(b, m, e);
    hide WordAt, File, MagicOk, SectionsOf, LinkWord, RomAt;
    if slot as int + 4 <= |b.partition| {
      PartitionWord(b, m, e, slot);
    }
  }
}
