/** The CRT0 loader: what it reads from flash, what it asks of its caller, and how a run ends. */
module Crt0 {
  import opened Words
  import opened Masks
  import opened Memories
  import opened Images

  const MAGIC: word := 0xFACADE12

  /** What a run starts from beside memory: the context fields read and the linker's
      __metadataOff. */
  datatype Env = Env(binBase: word, metadataOff: word, ramStart: word, ramEnd: word)

  /** Section addresses in flash and after relocation, and sizes, as uint32_t. */
  datatype Sections = Sections(rom: word, romSize: word, got: word, gotSize: word, data: word, dataSize: word,
                               relGot: word, relData: word, relBss: word, bssSize: word)

  /** A run ends in `die` or in the branch to start() with the GOT in r10. */
  datatype Outcome = Die(error: Error) | Branch(entry: word, got: word)

  // ----- What the loader reads -----

  function MetaAt(e: Env): word {
    Add(e.binBase, e.metadataOff)
  }

  function EndAt(m: Memory, e: Env): word {
    Add(e.binBase, WordAt(m, MetaAt(e)))
  }

  /** The footer word k bytes before the end of the binary. */
  function Footer(m: Memory, e: Env, k: word): word {
    WordAt(m, Sub(EndAt(m, e), k))
  }

  predicate MagicOk(m: Memory, e: Env) {
    Footer(m, e, 4) == MAGIC
  }

  function EntryCount(m: Memory, e: Env): word {
    WordAt(m, Add(MetaAt(e), 4))
  }

  function TableEnd(m: Memory, e: Env): word {
    Add(Add(Add(MetaAt(e), 4), 4), Times4(EntryCount(m, e)))
  }

  /** The magic number is itself a nonzero byte that the padding scan cannot pass. */
  lemma MagicStopsSkip(m: Memory, e: Env)
    requires MagicOk(m, e)
    ensures m[Sub(EndAt(m, e), 4)] == 0x12
  {
    MagicFirstByte(m, Sub(EndAt(m, e), 4));
  }

  lemma MagicFirstByte(m: Memory, a: word)
    requires WordAt(m, a) == MAGIC
    ensures m[a] == 0x12
  {
    FromLEValue(m[a], m[Add(a, 1)], m[Add(a, 2)], m[Add(a, 3)]);
  }

  function RomAt(m: Memory, e: Env): word
    requires MagicOk(m, e)
  {
    MagicStopsSkip(m, e);
    SkipZeros(m, TableEnd(m, e), Sub(EndAt(m, e), 4))
  }

  function MakeSections(rom: word, romSize: word, gotSize: word, dataSize: word, bssSize: word,
                        ramStart: word): Sections
  {
    var got := Add(rom, romSize);
    var relData := Add(ramStart, gotSize);
    Sections(rom, romSize, got, gotSize, Add(got, gotSize), dataSize,
             ramStart, relData, Add(relData, dataSize), bssSize)
  }

  function SectionsOf(m: Memory, e: Env): Sections
    requires MagicOk(m, e)
  {
    MakeSections(RomAt(m, e), Footer(m, e, 20), Footer(m, e, 24), Footer(m, e, 16), Footer(m, e, 28), e.ramStart)
  }

  /** The three comparisons, with their wrap-around. */
  predicate RamOk(s: Sections, ramEnd: word) {
    && Add(s.relGot, s.gotSize) <= ramEnd
    && Add(s.relData, s.dataSize) <= ramEnd
    && Add(s.relBss, s.bssSize) <= ramEnd
  }

  /** The RAM the program needs, without wrap-around. */
  function RamNeeded(s: Sections): nat {
    s.gotSize + s.dataSize + s.bssSize
  }

  /** The RAM that is written: clearing .ram goes by whole words. */
  function RamTouched(s: Sections): (n: nat)
    ensures RamNeeded(s) <= n < RamNeeded(s) + 4
  {
    s.gotSize + s.dataSize + Up4(s.bssSize)
  }

  function FlashSize(s: Sections): nat {
    s.romSize + s.gotSize + s.dataSize
  }

  /** The program fits below ramEnd exactly when the checks pass and the sum of the sizes
      does not run past the address space; there, the last comparison alone decides. */
  lemma RamCheckExact(rom: word, romSize: word, gotSize: word, dataSize: word, bssSize: word, ramStart: word,
                      ramEnd: word)
    ensures var s := MakeSections(rom, romSize, gotSize, dataSize, bssSize, ramStart);
      && (ramStart + RamNeeded(s) <= ramEnd <==> RamOk(s, ramEnd) && ramStart + RamNeeded(s) < SPACE)
      && (ramStart + RamNeeded(s) < SPACE ==> (RamOk(s, ramEnd) <==> Add(s.relBss, s.bssSize) <= ramEnd))
  {
  }

  // ----- What a caller of _start provides -----

  function SlotAt(m: Memory, e: Env, i: nat): word
    requires MetaAt(e) + 8 + 4 * i + 4 <= SPACE
  {
    WordAt(m, MetaAt(e) + 8 + 4 * i)
  }

  /** The .got holds whole words, nothing wraps, and the RAM to be written overlaps
      neither the table nor the partition nor a pointer slot that starts in flash. */
  ghost predicate LayoutSound(m: Memory, e: Env)
    requires MagicOk(m, e)
  {
    var s := SectionsOf(m, e);
    var n := EntryCount(m, e);
    && s.gotSize % 4 == 0
    && e.ramStart + RamTouched(s) < SPACE
    && s.rom + FlashSize(s) < SPACE
    && MetaAt(e) + 8 + 4 * n <= SPACE
    && Apart(s.rom, FlashSize(s), e.ramStart, RamTouched(s))
    && Apart(MetaAt(e), 8 + 4 * n, e.ramStart, RamTouched(s))
    && forall i :: 0 <= i < n ==> SlotSound(s, e, SlotAt(m, e, i))
  }

  ghost predicate SlotSound(s: Sections, e: Env, slot: word) {
    var total := FlashSize(s) + s.bssSize;
    s.romSize + s.gotSize <= slot < total ==>
      slot + 4 <= total && s.rom + slot + 4 <= SPACE && Apart(s.rom + slot, 4, e.ramStart, RamTouched(s))
  }

  /** Asked for only when the loader gets past its own checks. */
  ghost predicate Ready(m: Memory, e: Env) {
    MagicOk(m, e) && RamOk(SectionsOf(m, e), e.ramEnd) ==> LayoutSound(m, e)
  }

  /** The link-time value of a slot; irrelevant, and not recorded, outside .rom.ram and .ram. */
  function TargetOf(m: Memory, s: Sections, slot: word): word {
    if s.romSize + s.gotSize <= slot < FlashSize(s) + s.bssSize then WordAt(m, Add(s.rom, slot)) else 0
  }

  function TargetsOf(m: Memory, s: Sections, slots: seq<word>): (ts: seq<word>)
    ensures |ts| == |slots| && forall i :: 0 <= i < |ts| ==> ts[i] == TargetOf(m, s, slots[i])
  {
    seq(|slots|, i requires 0 <= i < |slots| => TargetOf(m, s, slots[i]))
  }

  function ImageOf(m: Memory, e: Env): Image
    requires MagicOk(m, e) && LayoutSound(m, e)
  {
    var s := SectionsOf(m, e);
    var data := s.rom + s.romSize + s.gotSize;
    var slots := WordsAt(m, MetaAt(e) + 8, EntryCount(m, e));
    Image(s.romSize, WordsAt(m, s.rom + s.romSize, s.gotSize / 4), m[data..data + s.dataSize], s.bssSize,
          slots, TargetsOf(m, s, slots))
  }

  function PlaceOf(m: Memory, e: Env): Place
    requires MagicOk(m, e)
  {
    Place(RomAt(m, e), e.ramStart)
  }

  lemma ImageSizes(m: Memory, e: Env)
    requires MagicOk(m, e) && LayoutSound(m, e)
    ensures var s, img := SectionsOf(m, e), ImageOf(m, e);
      && img.GotSize() == s.gotSize && img.DataAt() == s.romSize + s.gotSize
      && img.BssAt() == FlashSize(s) && img.Total() == FlashSize(s) + s.bssSize
      && img.RamSize() == RamNeeded(s) && img.RamSpan() == RamTouched(s)
    ensures Fits(ImageOf(m, e), PlaceOf(m, e))
  {
    hide WordAt, SkipZeros, Footer, TargetsOf, SlotSound;
  }

  lemma ImageSound(m: Memory, e: Env)
    requires MagicOk(m, e) && LayoutSound(m, e)
    ensures ImageOf(m, e).Valid() && Fits(ImageOf(m, e), PlaceOf(m, e))
    ensures var s, img := SectionsOf(m, e), ImageOf(m, e);
      && img.GotSize() == s.gotSize && img.DataAt() == s.romSize + s.gotSize
      && img.BssAt() == FlashSize(s) && img.Total() == FlashSize(s) + s.bssSize
      && img.RamSize() == RamNeeded(s) && img.RamSpan() == RamTouched(s)
  {
    hide WordAt, SectionsOf, ImageOf, PlaceOf, Fits, MagicOk, SlotAt, EntryCount, MetaAt, Image.DataAt, Image.Total,
         Image.BssAt, Image.RamSize, Image.RamSpan, FlashSize, RamNeeded, RamTouched;
    ImageSizes(m, e);
    ImageWords(m, e);
    var img, s := ImageOf(m, e), SectionsOf(m, e);
    forall i | 0 <= i < |img.slots| && img.DataAt() <= img.slots[i] < img.Total()
      ensures img.slots[i] as int + 4 <= img.Total()
    {
      assert SlotSound(s, e, SlotAt(m, e, i));
    }
  }

  // ----- What a run does -----

  function OutcomeOf(m: Memory, e: Env): Outcome
    requires Ready(m, e)
  {
    if !MagicOk(m, e) then Die(InvalidVersion)
    else if !RamOk(SectionsOf(m, e), e.ramEnd) then Die(NotEnoughRam)
    else match Verdict(ImageOf(m, e))
      case Some(error) => Die(error)
      case None => Branch(ThumbAddress(Add(RomAt(m, e), Footer(m, e, 12))), e.ramStart)
  }

  function MemoryAfter(m: Memory, e: Env): Memory
    requires Ready(m, e)
  {
    if MagicOk(m, e) && RamOk(SectionsOf(m, e), e.ramEnd) then
      ImageSound(m, e);
      Loaded(ImageOf(m, e), PlaceOf(m, e), m)
    else m
  }

  /** Which run ends how, in the loader's own terms. */
  lemma OutcomeParts(m: Memory, e: Env)
    requires Ready(m, e)
    ensures OutcomeOf(m, e) == Die(InvalidVersion) <==> !MagicOk(m, e)
    ensures OutcomeOf(m, e) == Die(NotEnoughRam) <==> MagicOk(m, e) && !RamOk(SectionsOf(m, e), e.ramEnd)
    ensures OutcomeOf(m, e).Branch? <==>
      && MagicOk(m, e) && RamOk(SectionsOf(m, e), e.ramEnd)
      && GotFine(m, e) && forall i :: 0 <= i < EntryCount(m, e) ==> EntryFine(m, e, i)
    ensures MagicOk(m, e) && RamOk(SectionsOf(m, e), e.ramEnd) && !GotFine(m, e) ==>
      OutcomeOf(m, e) == Die(OutOfBounds)
    ensures forall i ::
      && MagicOk(m, e) && RamOk(SectionsOf(m, e), e.ramEnd) && GotFine(m, e)
      && 0 <= i < EntryCount(m, e) && !EntryFine(m, e, i) && (forall j :: 0 <= j < i ==> EntryFine(m, e, j))
      ==> SlotFault(ImageOf(m, e), ImageOf(m, e).slots[i], ImageOf(m, e).targets[i]).Some?
          && OutcomeOf(m, e) == Die(SlotFault(ImageOf(m, e), ImageOf(m, e).slots[i], ImageOf(m, e).targets[i]).value)
  {
    hide *;
    OutcomeCases(m, e);
    if MagicOk(m, e) && RamOk(SectionsOf(m, e), e.ramEnd) {
      FineExact(m, e);
      VerdictCases(ImageOf(m, e));
    }
  }

  lemma OutcomeCases(m: Memory, e: Env)
    requires Ready(m, e)
    ensures !MagicOk(m, e) ==> OutcomeOf(m, e) == Die(InvalidVersion)
    ensures MagicOk(m, e) && !RamOk(SectionsOf(m, e), e.ramEnd) ==> OutcomeOf(m, e) == Die(NotEnoughRam)
    ensures MagicOk(m, e) && RamOk(SectionsOf(m, e), e.ramEnd) ==>
      && LayoutSound(m, e) && ImageOf(m, e).Valid() && |ImageOf(m, e).slots| == |ImageOf(m, e).targets|
      && (Verdict(ImageOf(m, e)) == None ==> OutcomeOf(m, e).Branch?)
      && (Verdict(ImageOf(m, e)) != None ==> OutcomeOf(m, e) == Die(Verdict(ImageOf(m, e)).value))
  {
    hide WordAt, SectionsOf, ImageOf, LayoutSound, MagicOk, RamOk, Verdict, RomAt, Footer;
    if MagicOk(m, e) && RamOk(SectionsOf(m, e), e.ramEnd) {
      ImageSound(m, e);
    }
  }

  /** Every GOT entry in flash is an offset into the image. */
  ghost predicate GotFine(m: Memory, e: Env)
    requires MagicOk(m, e) && LayoutSound(m, e)
  {
    var s := SectionsOf(m, e);
    forall i :: 0 <= i < s.gotSize / 4 ==> WordAt(m, s.rom + s.romSize + 4 * i) < FlashSize(s) + s.bssSize
  }

  /** Table entry i is the offset of a pointer outside .rom and .got, to something in the
      image outside .got. */
  ghost predicate EntryFine(m: Memory, e: Env, i: nat)
    requires MagicOk(m, e) && LayoutSound(m, e) && i < EntryCount(m, e)
  {
    var s, slot := SectionsOf(m, e), SlotAt(m, e, i);
    && s.romSize + s.gotSize <= slot < FlashSize(s) + s.bssSize
    && WordAt(m, Add(s.rom, slot)) < FlashSize(s) + s.bssSize
    && !(s.romSize <= WordAt(m, Add(s.rom, slot)) < s.romSize + s.gotSize)
  }

  lemma FineExact(m: Memory, e: Env)
    requires MagicOk(m, e) && LayoutSound(m, e)
    ensures var img := ImageOf(m, e);
      && |img.slots| == |img.targets| == EntryCount(m, e)
      && (GotFine(m, e) <==> forall j :: 0 <= j < |img.got| ==> GotEntryOk(img, j))
      && forall i :: 0 <= i < EntryCount(m, e) ==> (EntryFine(m, e, i) <==> SlotOk(img, i))
  {
    ImageSizes(m, e);
    GotFineExact(m, e);
    forall i | 0 <= i < EntryCount(m, e)
      ensures EntryFine(m, e, i) <==> SlotOk(ImageOf(m, e), i)
    {
      EntryFineExact(m, e, i);
    }
  }

  /** The words of the image are words of memory. */
  lemma ImageWords(m: Memory, e: Env)
    requires MagicOk(m, e) && LayoutSound(m, e)
    ensures var s, img := SectionsOf(m, e), ImageOf(m, e);
      && |img.got| == s.gotSize / 4 && |img.slots| == |img.targets| == EntryCount(m, e)
      && (forall j :: 0 <= j < |img.got| ==>
           s.rom + s.romSize + 4 * j < SPACE && img.got[j] == WordAt(m, s.rom + s.romSize + 4 * j))
      && forall i :: 0 <= i < |img.slots| ==>
           && MetaAt(e) + 8 + 4 * i + 4 <= SPACE
           && img.slots[i] == SlotAt(m, e, i) && img.targets[i] == TargetOf(m, s, img.slots[i])
  {
    hide WordAt, SectionsOf, WordsAt, TargetsOf, TargetOf, EntryCount, MetaAt, SlotSound, MagicOk;
  }

  lemma ImageParts(m: Memory, e: Env)
    requires MagicOk(m, e) && LayoutSound(m, e)
    ensures var s, img := SectionsOf(m, e), ImageOf(m, e);
      && img.romSize == s.romSize && img.bssSize == s.bssSize && |img.data| == s.dataSize
      && s.rom + FlashSize(s) < SPACE
      && forall i :: 0 <= i < |img.data| ==> img.data[i] == m[s.rom + s.romSize + s.gotSize + i]
  {
    hide WordAt, SectionsOf, WordsAt, TargetsOf, EntryCount, MetaAt, SlotSound, MagicOk;
  }

  lemma GotFineExact(m: Memory, e: Env)
    requires MagicOk(m, e) && LayoutSound(m, e)
    ensures GotFine(m, e) <==> forall j :: 0 <= j < |ImageOf(m, e).got| ==> GotEntryOk(ImageOf(m, e), j)
  {
    hide WordAt, SectionsOf, LayoutSound, MagicOk, ImageOf, Fits;
    ImageSizes(m, e);
    ImageWords(m, e);
    var img, s := ImageOf(m, e), SectionsOf(m, e);
    if forall j :: 0 <= j < |img.got| ==> GotEntryOk(img, j) {
      forall i | 0 <= i < s.gotSize / 4
        ensures WordAt(m, s.rom + s.romSize + 4 * i) < FlashSize(s) + s.bssSize
      {
        assert GotEntryOk(img, i);
      }
    }
  }

  lemma EntryFineExact(m: Memory, e: Env, i: nat)
    requires MagicOk(m, e) && LayoutSound(m, e) && i < EntryCount(m, e)
    ensures |ImageOf(m, e).slots| == |ImageOf(m, e).targets| == EntryCount(m, e)
    ensures EntryFine(m, e, i) <==> SlotOk(ImageOf(m, e), i)
  {
    hide WordAt, SectionsOf, LayoutSound, MagicOk, ImageOf, Fits, SlotAt, EntryCount, MetaAt;
    ImageSizes(m, e);
    ImageWords(m, e);
  }

  // ----- The outcome, read off the bytes -----

  /** The metadata's address, the binary's end, and the words found from there. */
  datatype Header = Header(meta: word, end: word, count: word, table: word, rom: word, romSize: word, gotSize: word,
                           dataSize: word, bssSize: word, start: word)

  /** h is what stands in memory; .rom begins behind the table and the k zero bytes that follow. */
  ghost predicate HeaderAt(m: Memory, e: Env, h: Header, k: nat) {
    && h.meta == Add(e.binBase, e.metadataOff) && h.end == Add(e.binBase, WordAt(m, h.meta))
    && h.count == WordAt(m, Add(h.meta, 4)) && h.table == (h.meta + 8 + 4 * h.count) % SPACE
    && h.romSize == WordAt(m, Sub(h.end, 20)) && h.gotSize == WordAt(m, Sub(h.end, 24))
    && h.dataSize == WordAt(m, Sub(h.end, 16)) && h.bssSize == WordAt(m, Sub(h.end, 28))
    && h.start == WordAt(m, Sub(h.end, 12))
    && h.rom == (h.table + k) % SPACE && m[h.rom] != 0
    && forall j: nat :: j < k ==> ByteBehind(m, h.table, j) == 0
  }

  lemma WordIsMagic(m: Memory, a: word)
    ensures WordAt(m, a) == 0xFACADE12 <==>
      m[a] == 0x12 && m[(a + 1) % SPACE] == 0xDE && m[(a + 2) % SPACE] == 0xCA && m[(a + 3) % SPACE] == 0xFA
  {
    WordAtValue(m, a);
    hide WordAt;
    Digits(m[a], m[(a + 1) % SPACE], m[(a + 2) % SPACE], m[(a + 3) % SPACE]);
  }

  lemma Digits(b0: int, b1: int, b2: int, b3: int)
    requires 0 <= b0 < 256 && 0 <= b1 < 256 && 0 <= b2 < 256 && 0 <= b3 < 256
    ensures b0 + 0x100 * b1 + 0x1_0000 * b2 + 0x100_0000 * b3 == 0xFACADE12 <==>
      b0 == 0x12 && b1 == 0xDE && b2 == 0xCA && b3 == 0xFA
  {
  }

  /** A run dies of the version exactly when the four bytes in front of the binary's end are not
      those of the magic number. */
  lemma DiesOfVersion(m: Memory, e: Env)
    requires Ready(m, e)
    ensures var end := (e.binBase + WordAt(m, (e.binBase + e.metadataOff) % SPACE)) % SPACE;
      OutcomeOf(m, e) == Die(InvalidVersion) <==>
        !(&& m[(end - 4) % SPACE] == 0x12 && m[(end - 3) % SPACE] == 0xDE
          && m[(end - 2) % SPACE] == 0xCA && m[(end - 1) % SPACE] == 0xFA)
  {
    MagicExact(m, e);
    hide WordAt, MagicOk, OutcomeOf, Ready, SectionsOf, RamOk;
    OutcomeParts(m, e);
  }

  lemma MagicExact(m: Memory, e: Env)
    ensures var end := (e.binBase + WordAt(m, (e.binBase + e.metadataOff) % SPACE)) % SPACE;
      && MetaAt(e) == (e.binBase + e.metadataOff) % SPACE && EndAt(m, e) == end
      && (MagicOk(m, e) <==>
           && m[(end - 4) % SPACE] == 0x12 && m[(end - 3) % SPACE] == 0xDE
           && m[(end - 2) % SPACE] == 0xCA && m[(end - 1) % SPACE] == 0xFA)
  {
    WrapAdd(e.binBase, e.metadataOff);
    WrapAdd(e.binBase, WordAt(m, MetaAt(e)));
    var end := EndAt(m, e);
    WrapAdd(end, 4);
    WordIsMagic(m, Sub(end, 4));
    Onward(end);
    hide WordAt, Add, Sub;
  }

  lemma Onward(end: word)
    ensures var a := (end - 4) % SPACE;
      && (a + 1) % SPACE == (end - 3) % SPACE && (a + 2) % SPACE == (end - 2) % SPACE
      && (a + 3) % SPACE == (end - 1) % SPACE
  {
  }

  lemma TableEndIs(m: Memory, e: Env)
    ensures TableEnd(m, e) == (MetaAt(e) + 8 + 4 * EntryCount(m, e)) % SPACE
  {
    var meta, n := MetaAt(e), EntryCount(m, e);
    hide WordAt, MetaAt, EntryCount, Add, Times4;
    WrapAdd(meta, 4);
    WrapAdd(Add(meta, 4), 4);
    WrapAdd(Add(Add(meta, 4), 4), Times4(n));
    WrapTimes4(n);
    WrapTwice(meta, 4 * n as int);
  }

  lemma WrapTimes4(n: word)
    ensures Times4(n) == 4 * n % SPACE
  {
  }

  lemma WrapTwice(x: nat, y: nat)
    ensures (((x + 4) % SPACE + 4) % SPACE + y % SPACE) % SPACE == (x + 8 + y) % SPACE
  {
    WrapAgain(x + 4, 4);
    WrapAgain(x + 8, y % SPACE);
    WrapAgain(y, x + 8);
  }

  lemma ScanExact(m: Memory, e: Env)
    requires MagicOk(m, e)
    ensures m[Sub(EndAt(m, e), 4)] != 0 && RomAt(m, e) == SkipZeros(m, TableEnd(m, e), Sub(EndAt(m, e), 4))
  {
    MagicStopsSkip(m, e);
    hide EndAt, TableEnd, SkipZeros, MagicOk, Sub;
  }

  /** Every memory with the magic number in place has a header. */
  lemma HeaderExists(m: Memory, e: Env) returns (h: Header, k: nat)
    requires MagicOk(m, e)
    ensures HeaderAt(m, e, h, k)
  {
    TableEndIs(m, e);
    ScanExact(m, e);
    var meta, end, t := MetaAt(e), EndAt(m, e), TableEnd(m, e);
    hide WordAt, SkipZeros, MagicOk, Add, Sub, TableEnd, ByteBehind;
    k := SkipZerosStops(m, t, Sub(end, 4));
    h := Header(meta, end, EntryCount(m, e), t, (t + k) % SPACE, WordAt(m, Sub(end, 20)), WordAt(m, Sub(end, 24)),
                WordAt(m, Sub(end, 16)), WordAt(m, Sub(end, 28)), WordAt(m, Sub(end, 12)));
  }

  /** The loader finds that header. */
  lemma HeaderExact(m: Memory, e: Env, h: Header, k: nat)
    requires MagicOk(m, e) && HeaderAt(m, e, h, k)
    ensures MetaAt(e) == h.meta && EndAt(m, e) == h.end && EntryCount(m, e) == h.count && RomAt(m, e) == h.rom
    ensures Footer(m, e, 12) == h.start
    ensures SectionsOf(m, e) == MakeSections(h.rom, h.romSize, h.gotSize, h.dataSize, h.bssSize, e.ramStart)
  {
    TableEndIs(m, e);
    ScanExact(m, e);
    hide WordAt, MagicOk, Add, Sub, MakeSections, SkipZeros, TableEnd, ByteBehind, RomAt;
    assert ByteBehind(m, h.table, k) == m[h.rom];
    SkipZerosIs(m, TableEnd(m, e), Sub(EndAt(m, e), 4), k);
  }

  lemma BehindInside(m: Memory, a: nat, j: nat)
    requires a + 4 * j < SPACE
    ensures WordBehind(m, a, j) == WordAt(m, a + 4 * j)
  {
    hide WordAt;
  }

  /** What the checks and faults come to in numbers. */
  lemma ChecksExact(m: Memory, e: Env, h: Header, k: nat)
    requires MagicOk(m, e) && HeaderAt(m, e, h, k)
    ensures RamOk(SectionsOf(m, e), e.ramEnd) <==>
      && Add(e.ramStart, h.gotSize) <= e.ramEnd && Add(Add(e.ramStart, h.gotSize), h.dataSize) <= e.ramEnd
      && Add(Add(Add(e.ramStart, h.gotSize), h.dataSize), h.bssSize) <= e.ramEnd
  {
    HeaderExact(m, e, h, k);
    hide Add, HeaderAt, MagicOk, SectionsOf;
  }

  lemma GotExact(m: Memory, e: Env, h: Header, k: nat)
    requires MagicOk(m, e) && LayoutSound(m, e) && HeaderAt(m, e, h, k)
    ensures var got, total := h.rom + h.romSize, h.romSize + h.gotSize + h.dataSize + h.bssSize;
      GotFine(m, e) <==> forall i :: 0 <= i < h.gotSize / 4 ==> WordBehind(m, got, i) < total
  {
    hide HeaderAt, MagicOk, SectionsOf, LayoutSound, WordAt, WordBehind, Add, RomAt, Footer;
    HeaderExact(m, e, h, k);
    LayoutFits(m, e);
    GotWordsExact(m, h.rom, h.romSize, h.gotSize / 4, h.rom + h.romSize);
  }

  lemma GotWordsExact(m: Memory, rom: nat, romSize: nat, n: nat, got: nat)
    requires got == rom + romSize && got + 4 * n <= SPACE
    ensures forall i :: 0 <= i < n ==>
      rom + romSize + 4 * i < SPACE && WordBehind(m, got, i) == WordAt(m, rom + romSize + 4 * i)
  {
    hide WordAt, WordBehind;
    forall i | 0 <= i < n
      ensures rom + romSize + 4 * i < SPACE && WordBehind(m, got, i) == WordAt(m, rom + romSize + 4 * i)
    {
      BehindInside(m, got, i);
    }
  }

  lemma LayoutFits(m: Memory, e: Env)
    requires MagicOk(m, e) && LayoutSound(m, e)
    ensures var s := SectionsOf(m, e);
      && s.rom + FlashSize(s) < SPACE && s.gotSize % 4 == 0 && MetaAt(e) + 8 + 4 * EntryCount(m, e) <= SPACE
      && e.ramStart + RamTouched(s) < SPACE
  {
    hide SectionsOf, SlotSound, SlotAt, EntryCount, MetaAt, MagicOk;
  }

  lemma EntryExact(m: Memory, e: Env, h: Header, k: nat, i: nat, slot: word, target: word)
    requires MagicOk(m, e) && LayoutSound(m, e) && HeaderAt(m, e, h, k) && i < h.count
    requires slot == WordBehind(m, h.meta + 8, i) && target == WordAt(m, Add(h.rom, slot))
    ensures EntryCount(m, e) == h.count && SlotAtFits(e, i) && SlotAt(m, e, i) == slot
    ensures EntryFine(m, e, i) <==>
      && h.romSize + h.gotSize <= slot < h.romSize + h.gotSize + h.dataSize + h.bssSize
      && target < h.romSize + h.gotSize + h.dataSize + h.bssSize
      && !(h.romSize <= target < h.romSize + h.gotSize)
  {
    HeaderExact(m, e, h, k);
    LayoutFits(m, e);
    BehindInside(m, h.meta + 8, i);
    hide HeaderAt, MagicOk, SectionsOf, LayoutSound, WordAt, WordBehind, Add;
  }

  ghost predicate SlotAtFits(e: Env, i: nat) {
    MetaAt(e) + 8 + 4 * i + 4 <= SPACE
  }

  /** Which run ends how. A run starts the program exactly when the magic number stands in front of
      the binary's end, the three RAM checks pass, every GOT entry in flash is an offset into the
      image, and every table entry is the offset of a pointer in .rom.ram or .ram whose value is an
      offset into the image but not into the GOT. The checks come in that order, and a GOT entry out
      of bounds is reported before any table entry. */
  lemma OutcomeExact(m: Memory, e: Env, h: Header, k: nat, magic: bool, room: bool, gotGood: bool, slotsGood: bool)
    requires Ready(m, e) && HeaderAt(m, e, h, k)
    requires magic ==
      (&& m[Sub(h.end, 4)] == 0x12 && m[Sub(h.end, 3)] == 0xDE
       && m[Sub(h.end, 2)] == 0xCA && m[Sub(h.end, 1)] == 0xFA)
    requires room ==
      (&& Add(e.ramStart, h.gotSize) <= e.ramEnd && Add(Add(e.ramStart, h.gotSize), h.dataSize) <= e.ramEnd
       && Add(Add(Add(e.ramStart, h.gotSize), h.dataSize), h.bssSize) <= e.ramEnd)
    requires var got, total := h.rom + h.romSize, h.romSize + h.gotSize + h.dataSize + h.bssSize;
      gotGood == forall i :: 0 <= i < h.gotSize / 4 ==> WordBehind(m, got, i) < total
    requires var entries, data, total :=
        h.meta + 8, h.romSize + h.gotSize, h.romSize + h.gotSize + h.dataSize + h.bssSize;
      slotsGood == forall i :: 0 <= i < h.count ==>
        var slot := WordBehind(m, entries, i);
        var target := WordAt(m, Add(h.rom, slot));
        data <= slot < total && target < total && !(h.romSize <= target < data)
    ensures OutcomeOf(m, e) == Die(InvalidVersion) <==> !magic
    ensures OutcomeOf(m, e) == Die(NotEnoughRam) <==> magic && !room
    ensures magic && room && !gotGood ==> OutcomeOf(m, e) == Die(OutOfBounds)
    ensures OutcomeOf(m, e).Branch? <==> magic && room && gotGood && slotsGood
  {
    hide *;
    MagicAt(m, e, h, k);
    OutcomeParts(m, e);
    if MagicOk(m, e) {
      ChecksExact(m, e, h, k);
      HeaderExact(m, e, h, k);
      if RamOk(SectionsOf(m, e), e.ramEnd) {
        ReadySound(m, e);
        GotExact(m, e, h, k);
        EntriesExact(m, e, h, k);
      }
    }
  }

  lemma EntriesExact(m: Memory, e: Env, h: Header, k: nat)
    requires MagicOk(m, e) && LayoutSound(m, e) && HeaderAt(m, e, h, k)
    ensures EntryCount(m, e) == h.count
    ensures var entries, data, total :=
        h.meta + 8, h.romSize + h.gotSize, h.romSize + h.gotSize + h.dataSize + h.bssSize;
      forall i :: 0 <= i < h.count ==>
        (EntryFine(m, e, i) <==>
          var slot := WordBehind(m, entries, i);
          var target := WordAt(m, Add(h.rom, slot));
          data <= slot < total && target < total && !(h.romSize <= target < data))
  {
    hide *;
    HeaderExact(m, e, h, k);
    var entries, data, total :=
      h.meta + 8, h.romSize + h.gotSize, h.romSize + h.gotSize + h.dataSize + h.bssSize;
    forall i | 0 <= i < h.count
      ensures EntryFine(m, e, i) <==>
        var slot := WordBehind(m, entries, i);
        var target := WordAt(m, Add(h.rom, slot));
        data <= slot < total && target < total && !(h.romSize <= target < data)
    {
      var slot := WordBehind(m, entries, i);
      EntryExact(m, e, h, k, i, slot, WordAt(m, Add(h.rom, slot)));
    }
  }

  lemma MagicAt(m: Memory, e: Env, h: Header, k: nat)
    requires HeaderAt(m, e, h, k)
    ensures MagicOk(m, e) <==>
      && m[Sub(h.end, 4)] == 0x12 && m[Sub(h.end, 3)] == 0xDE
      && m[Sub(h.end, 2)] == 0xCA && m[Sub(h.end, 1)] == 0xFA
  {
    hide WordAt, Add, Sub;
    EndBytes(m, h.end);
  }

  lemma EndBytes(m: Memory, end: word)
    ensures WordAt(m, Sub(end, 4)) == 0xFACADE12 <==>
      m[Sub(end, 4)] == 0x12 && m[Sub(end, 3)] == 0xDE && m[Sub(end, 2)] == 0xCA && m[Sub(end, 1)] == 0xFA
  {
    var a := Sub(end, 4);
    assert Add(a, 1) == Sub(end, 3) && Add(a, 2) == Sub(end, 2) && Add(a, 3) == Sub(end, 1);
    hide Sub;
    FromLEValue(m[a], m[Add(a, 1)], m[Add(a, 2)], m[Add(a, 3)]);
    Digits(m[a], m[Add(a, 1)], m[Add(a, 2)], m[Add(a, 3)]);
    hide FromLE;
  }

  lemma ReadySound(m: Memory, e: Env)
    requires Ready(m, e) && MagicOk(m, e) && RamOk(SectionsOf(m, e), e.ramEnd)
    ensures LayoutSound(m, e)
  {
    hide MagicOk, RamOk, SectionsOf, LayoutSound;
  }

  /** A start branches to the entry point made odd, with the GOT's place for r10. */
  lemma StartsAt(m: Memory, e: Env, h: Header, k: nat, entry: word)
    requires Ready(m, e) && OutcomeOf(m, e).Branch? && HeaderAt(m, e, h, k) && entry == Add(h.rom, h.start)
    ensures OutcomeOf(m, e).entry == entry - entry % 2 + 1 && OutcomeOf(m, e).got == e.ramStart
  {
    hide *;
    BranchTo(m, e);
    HeaderExact(m, e, h, k);
  }

  lemma BranchTo(m: Memory, e: Env)
    requires Ready(m, e) && OutcomeOf(m, e).Branch?
    ensures MagicOk(m, e) && OutcomeOf(m, e).got == e.ramStart
    ensures var entry := Add(RomAt(m, e), Footer(m, e, 12)); OutcomeOf(m, e).entry == entry - entry % 2 + 1
  {
    hide MagicOk, RamOk, SectionsOf, LayoutSound, RomAt, Footer, Verdict, ImageOf, Add;
  }

  /** The error of a run whose first bad table entry is number i, by where the slot lies and, if the
      slot is in .rom.ram or .ram, by what it points to. */
  lemma FirstBadEntry(m: Memory, e: Env, h: Header, k: nat, i: nat, slot: word, target: word)
    requires Ready(m, e) && HeaderAt(m, e, h, k) && i < h.count
    requires OutcomeOf(m, e) != Die(InvalidVersion) && OutcomeOf(m, e) != Die(NotEnoughRam)
    requires var got, total := h.rom + h.romSize, h.romSize + h.gotSize + h.dataSize + h.bssSize;
      forall j :: 0 <= j < h.gotSize / 4 ==> WordBehind(m, got, j) < total
    requires var entries, data, total :=
        h.meta + 8, h.romSize + h.gotSize, h.romSize + h.gotSize + h.dataSize + h.bssSize;
      forall j :: 0 <= j < i ==>
        var s := WordBehind(m, entries, j);
        var t := WordAt(m, Add(h.rom, s));
        data <= s < total && t < total && !(h.romSize <= t < data)
    requires slot == WordBehind(m, h.meta + 8, i) && target == WordAt(m, Add(h.rom, slot))
    ensures var got, data, total := h.romSize, h.romSize + h.gotSize, h.romSize + h.gotSize + h.dataSize + h.bssSize;
      && (slot < got ==> OutcomeOf(m, e) == Die(InRom))
      && (got <= slot < data ==> OutcomeOf(m, e) == Die(InGot))
      && (total <= slot ==> OutcomeOf(m, e) == Die(OutOfBounds))
      && (data <= slot < total && got <= target < data ==> OutcomeOf(m, e) == Die(InGot))
      && (data <= slot < total && total <= target ==> OutcomeOf(m, e) == Die(OutOfBounds))
  {
    hide *;
    OutcomeParts(m, e);
    HeaderExact(m, e, h, k);
    ReadySound(m, e);
    GotExact(m, e, h, k);
    EntriesExact(m, e, h, k);
    SlotFaultAt(m, e, h, k, i, slot, target);
  }

  lemma SlotFaultAt(m: Memory, e: Env, h: Header, k: nat, i: nat, slot: word, target: word)
    requires MagicOk(m, e) && LayoutSound(m, e) && HeaderAt(m, e, h, k) && i < h.count
    requires slot == WordBehind(m, h.meta + 8, i) && target == WordAt(m, Add(h.rom, slot))
    ensures EntryCount(m, e) == h.count
    ensures |ImageOf(m, e).slots| == |ImageOf(m, e).targets| == h.count
    ensures var f := SlotFault(ImageOf(m, e), ImageOf(m, e).slots[i], ImageOf(m, e).targets[i]);
      var got, data, total := h.romSize, h.romSize + h.gotSize, h.romSize + h.gotSize + h.dataSize + h.bssSize;
      && (slot < got ==> f == Some(InRom)) && (got <= slot < data ==> f == Some(InGot))
      && (total <= slot ==> f == Some(OutOfBounds))
      && (data <= slot < total && got <= target < data ==> f == Some(InGot))
      && (data <= slot < total && total <= target ==> f == Some(OutOfBounds))
  {
    hide HeaderAt, MagicOk, SectionsOf, LayoutSound, WordAt, WordBehind, Add, ImageOf, SlotAt, EntryCount, MetaAt;
    HeaderExact(m, e, h, k);
    EntryExact(m, e, h, k, i, slot, target);
    ImageSizes(m, e);
    ImageParts(m, e);
    ImageWords(m, e);
  }

  /** No run writes outside the RAM it claims; a run that dies on a check writes nothing. */
  lemma RunFrame(m: Memory, e: Env)
    requires Ready(m, e)
    ensures OutcomeOf(m, e) in {Die(InvalidVersion), Die(NotEnoughRam)} ==> MemoryAfter(m, e) == m
    ensures MagicOk(m, e) ==>
      SameOutside(m, MemoryAfter(m, e), e.ramStart, e.ramStart + RamTouched(SectionsOf(m, e)))
  {
    hide WordAt, SectionsOf, ImageOf, LayoutSound, MagicOk, RamOk, Verdict, RomAt, Footer, Loaded, OutcomeOf,
         ThumbAddress;
    OutcomeCases(m, e);
    if MagicOk(m, e) && RamOk(SectionsOf(m, e), e.ramEnd) {
      ImageSound(m, e);
      LoadedFrame(ImageOf(m, e), PlaceOf(m, e), m);
      VerdictCases(ImageOf(m, e));
    }
  }

  /** A run past the checks leaves memory as it was outside the RAM claimed exactly when the rest
      of the last word of .ram, up to three bytes behind that RAM, was zero before. */
  lemma RunFrameExact(m: Memory, e: Env)
    requires Ready(m, e) && MagicOk(m, e) && RamOk(SectionsOf(m, e), e.ramEnd)
    ensures var end, stop := e.ramStart + RamNeeded(SectionsOf(m, e)), e.ramStart + RamTouched(SectionsOf(m, e));
      && (SameOutside(m, MemoryAfter(m, e), e.ramStart, end) <==> forall x: word :: end <= x < stop ==> m[x] == 0)
      && (SectionsOf(m, e).bssSize % 4 == 0 <==> stop == end)
  {
    hide WordAt, SectionsOf, ImageOf, PlaceOf, LayoutSound, MagicOk, RamOk, RomAt, Footer, Loaded, Up4;
    ImageSound(m, e);
    PlaceRam(m, e);
    Up4Exact(SectionsOf(m, e).bssSize);
    var img, p, end := ImageOf(m, e), PlaceOf(m, e), e.ramStart + RamNeeded(SectionsOf(m, e));
    LoadedFrame(img, p, m);
    forall x: word | end <= x < e.ramStart + RamTouched(SectionsOf(m, e))
      ensures MemoryAfter(m, e)[x] == 0
    {
      ClearedBehind(img, p, m, x);
    }
    hide RamNeeded, RamTouched, Fits, Image.Valid;
  }

  lemma PlaceRam(m: Memory, e: Env)
    requires MagicOk(m, e)
    ensures PlaceOf(m, e).ram == e.ramStart
  {
    hide RomAt, MagicOk;
  }

  /** Everything the loader dereferences as a word lies on a word boundary. */
  ghost predicate WordAligned(m: Memory, e: Env) {
    && e.binBase % 4 == 0 && e.metadataOff % 4 == 0 && WordAt(m, MetaAt(e)) % 4 == 0
    && (MagicOk(m, e) && RamOk(SectionsOf(m, e), e.ramEnd) && LayoutSound(m, e) ==>
         var s := SectionsOf(m, e);
         && s.rom % 4 == 0 && s.romSize % 4 == 0 && s.gotSize % 4 == 0 && s.dataSize % 4 == 0
         && e.ramStart % 4 == 0
         && forall i :: 0 <= i < EntryCount(m, e) ==> SlotAt(m, e, i) % 4 == 0)
  }
}
