/** The promises of the format: a built file loads anywhere, and the loaded program sees
    the memory its linker laid out. */
module EndToEnd {
  import opened Words
  import opened Masks
  import opened Memories
  import opened Images
  import opened Crt0
  import opened Fae
  import opened Linked

  ghost predicate HasRoom(b: Parts, e: Env) {
    e.ramStart + RamNeed(b) <= e.ramEnd
  }

  // ----- Whole runs -----

  /** A well-formed file starts wherever it has room, unless the image itself is at fault;
      without room it dies before writing anything. The reason never depends on the place. */
  lemma BuiltFileLoads(b: Parts, m: Memory, e: Env)
    requires WellFormed(b) && Programmed(b, m, e)
    ensures Ready(m, e) && LinkImage(b).Valid() && Fits(LinkImage(b), PlaceFor(b, e))
    ensures !HasRoom(b, e) ==> OutcomeOf(m, e) == Die(NotEnoughRam) && MemoryAfter(m, e) == m
    ensures HasRoom(b, e) ==>
      && MemoryAfter(m, e) == Loaded(LinkImage(b), PlaceFor(b, e), m)
      && OutcomeOf(m, e) == match Verdict(LinkImage(b))
           case Some(error) => Die(error)
           case None => Branch(ThumbAddress(Add(PlaceFor(b, e).rom, b.symbols.start)), e.ramStart)
    ensures OutcomeOf(m, e).Branch? <==> HasRoom(b, e) && FaultFree(b)
  {
    FaultFreeExact(b);
    ImageRoundTrip(b, m, e);
    ImageSound(m, e);
    SectionsRoundTrip(b, m, e);
    FooterRoundTrip(b, m, e);
    var s := b.symbols;
    RamCheckExact(PlaceFor(b, e).rom, s.romSize, s.gotSize, s.dataSize, s.bssSize, e.ramStart, e.ramEnd);
    hide WordAt, File, MagicOk, SectionsOf, LayoutSound, RomAt, ImageOf, LinkImage, Footer, Loaded, Verdict,
         ThumbAddress, RamOk, FaultFree;
  }

  /** The same in the linker's numbers: `room` is that .got, .rom.ram and .ram fit below ram_end,
      `gotGood` that every GOT entry is an offset into the image, `slotsGood` that every listed
      pointer lies in .rom.ram and holds an offset into the image outside .got. */
  lemma BuiltFileOutcome(b: Parts, m: Memory, e: Env, room: bool, gotGood: bool, slotsGood: bool)
    requires WellFormed(b) && Programmed(b, m, e)
    requires room == (e.ramStart + b.symbols.gotSize + b.symbols.dataSize + b.symbols.bssSize <= e.ramEnd)
    requires var total := |b.partition| + b.symbols.bssSize;
      gotGood == forall i :: 0 <= i < b.symbols.gotSize / 4 ==> LinkWord(b, b.symbols.romSize + 4 * i) < total
    requires var got, data, total :=
        b.symbols.romSize, b.symbols.romSize + b.symbols.gotSize, |b.partition| + b.symbols.bssSize;
      slotsGood == forall i :: 0 < i < |b.table| ==>
        && data <= b.table[i] && b.table[i] as int + 4 <= |b.partition|
        && LinkWord(b, b.table[i]) < total && !(got <= LinkWord(b, b.table[i]) < data)
    ensures Ready(m, e)
    ensures OutcomeOf(m, e) != Die(InvalidVersion)
    ensures OutcomeOf(m, e) == Die(NotEnoughRam) <==> !room
    ensures room && !gotGood ==> OutcomeOf(m, e) == Die(OutOfBounds)
    ensures OutcomeOf(m, e).Branch? <==> room && gotGood && slotsGood
  {
    hide WordAt, Programmed, OutcomeOf, MemoryAfter, Ready, LinkImage, Loaded, Verdict, LinkWord, Parts.Encodable, Fits,
         Image.Valid, ThumbAddress, PlaceFor, Add, GotEntryOk, SlotOk;
    BuiltFileLoads(b, m, e);
    VerdictKinds(b);
    GotFaultFree(b);
    LinkImageSizes(b);
    BadGotFirst(b);
  }

  lemma VerdictKinds(b: Parts)
    requires WellFormed(b)
    ensures LinkImage(b).Valid() && Verdict(LinkImage(b)) !in {Some(InvalidVersion), Some(NotEnoughRam)}
  {
    hide LinkImage, WellFormed, Verdict, GotEntryOk, SlotOk;
    LinkImageSizes(b);
    VerdictCases(LinkImage(b));
  }

  lemma BadGotFirst(b: Parts)
    requires WellFormed(b)
    ensures LinkImage(b).Valid()
    ensures !(forall i :: 0 <= i < |LinkImage(b).got| ==> LinkImage(b).got[i] < LinkImage(b).Total()) ==>
      Verdict(LinkImage(b)) == Some(OutOfBounds)
  {
    hide LinkImage, WellFormed, Verdict, GotEntryOk, SlotOk, Image.Total, Image.Valid;
    LinkImageSizes(b);
    VerdictExact(LinkImage(b));
  }

  /** The error of a program with room whose first bad listed pointer is number i, by where it lies
      and, if it lies in .rom.ram, by what it holds. */
  lemma BuiltFileFault(b: Parts, m: Memory, e: Env, i: nat)
    requires WellFormed(b) && Programmed(b, m, e) && 0 < i < |b.table|
    requires e.ramStart + b.symbols.gotSize + b.symbols.dataSize + b.symbols.bssSize <= e.ramEnd
    requires var total := |b.partition| + b.symbols.bssSize;
      forall j :: 0 <= j < b.symbols.gotSize / 4 ==> LinkWord(b, b.symbols.romSize + 4 * j) < total
    requires var got, data, total :=
        b.symbols.romSize, b.symbols.romSize + b.symbols.gotSize, |b.partition| + b.symbols.bssSize;
      forall j :: 0 < j < i ==>
        && data <= b.table[j] && b.table[j] as int + 4 <= |b.partition|
        && LinkWord(b, b.table[j]) < total && !(got <= LinkWord(b, b.table[j]) < data)
    ensures Ready(m, e)
    ensures var got, data, total, slot :=
        b.symbols.romSize, b.symbols.romSize + b.symbols.gotSize, |b.partition| + b.symbols.bssSize, b.table[i];
      && (slot < got ==> OutcomeOf(m, e) == Die(InRom))
      && (got <= slot < data ==> OutcomeOf(m, e) == Die(InGot))
      && (total <= slot ==> OutcomeOf(m, e) == Die(OutOfBounds))
      && (data <= slot < total && got <= LinkWord(b, slot) < data ==> OutcomeOf(m, e) == Die(InGot))
      && (data <= slot < total && total <= LinkWord(b, slot) ==> OutcomeOf(m, e) == Die(OutOfBounds))
  {
    SlotIn(b, i);
    hide *;
    FirstFault(b, i);
    FaultIs(b, i);
    HasRoomIs(b, e);
    BuiltFileLoads(b, m, e);
  }

  lemma HasRoomIs(b: Parts, e: Env)
    ensures HasRoom(b, e) <==>
      e.ramStart + b.symbols.gotSize + b.symbols.dataSize + b.symbols.bssSize <= e.ramEnd
  {
  }

  /** The verdict is that on the first bad listed pointer. */
  lemma FirstFault(b: Parts, i: nat)
    requires WellFormed(b) && 0 < i < |b.table|
    requires var total := |b.partition| + b.symbols.bssSize;
      forall j :: 0 <= j < b.symbols.gotSize / 4 ==> LinkWord(b, b.symbols.romSize + 4 * j) < total
    requires var got, data, total :=
        b.symbols.romSize, b.symbols.romSize + b.symbols.gotSize, |b.partition| + b.symbols.bssSize;
      forall j :: 0 < j < i ==>
        && data <= b.table[j] && b.table[j] as int + 4 <= |b.partition|
        && LinkWord(b, b.table[j]) < total && !(got <= LinkWord(b, b.table[j]) < data)
    ensures LinkImage(b).Valid() && i - 1 < |LinkImage(b).slots| == |LinkImage(b).targets|
    ensures !SlotOk(LinkImage(b), i - 1) ==>
      Verdict(LinkImage(b)) == SlotFault(LinkImage(b), LinkImage(b).slots[i - 1], LinkImage(b).targets[i - 1])
  {
    hide LinkImage, Verdict, LinkWord, Image.Valid, GotEntryOk, SlotOk, WellFormed, SlotFault, LinkTarget;
    LinkImageSizes(b);
    LinkSlots(b);
    GotEntriesOk(b);
    forall j | 0 <= j < i - 1
      ensures SlotOk(LinkImage(b), j)
    {
      ListedOk(b, j + 1);
    }
    VerdictCases(LinkImage(b));
  }

  lemma SlotIn(b: Parts, i: nat)
    requires WellFormed(b) && 0 < i < |b.table|
    ensures b.table[i] as int + 4 <= |b.partition| || b.table[i] >= |b.partition| + b.symbols.bssSize
    ensures b.symbols.romSize + b.symbols.gotSize <= |b.partition|
  {
  }

  lemma GotEntriesOk(b: Parts)
    requires WellFormed(b)
    requires forall j :: 0 <= j < b.symbols.gotSize / 4 ==> LinkWord(b, b.symbols.romSize + 4 * j) < Total(b)
    ensures forall j :: 0 <= j < |LinkImage(b).got| ==> GotEntryOk(LinkImage(b), j)
  {
    GotFaultFree(b);
    hide LinkImage, LinkWord, WellFormed;
  }

  lemma ListedOk(b: Parts, i: nat)
    requires WellFormed(b) && 0 < i < |b.table|
    requires b.symbols.romSize + b.symbols.gotSize <= b.table[i] && b.table[i] as int + 4 <= |b.partition|
    requires LinkWord(b, b.table[i]) < Total(b)
    requires !(b.symbols.romSize <= LinkWord(b, b.table[i]) < b.symbols.romSize + b.symbols.gotSize)
    ensures i - 1 < |LinkImage(b).slots| == |LinkImage(b).targets| && SlotOk(LinkImage(b), i - 1)
  {
    hide LinkImage, LinkWord, Image.Valid;
    LinkImageSizes(b);
    LinkSlots(b);
    assert LinkImage(b).slots[i - 1] == b.table[i];
  }

  lemma FaultIs(b: Parts, i: nat)
    requires WellFormed(b) && 0 < i < |b.table|
    ensures i - 1 < |LinkImage(b).slots| == |LinkImage(b).targets|
    ensures var f := SlotFault(LinkImage(b), LinkImage(b).slots[i - 1], LinkImage(b).targets[i - 1]);
      var got, data, total, slot :=
        b.symbols.romSize, b.symbols.romSize + b.symbols.gotSize, |b.partition| + b.symbols.bssSize, b.table[i];
      && (SlotOk(LinkImage(b), i - 1) <==> f == None)
      && (slot < got ==> f == Some(InRom)) && (got <= slot < data ==> f == Some(InGot))
      && (total <= slot ==> f == Some(OutOfBounds))
      && (data <= slot < total && slot as int + 4 <= |b.partition| ==>
           && (got <= LinkWord(b, slot) < data ==> f == Some(InGot))
           && (total <= LinkWord(b, slot) ==> f == Some(OutOfBounds)))
  {
    hide LinkImage, LinkWord, Image.Valid;
    LinkImageSizes(b);
    LinkSlots(b);
    assert LinkImage(b).slots[i - 1] == b.table[i];
  }

  lemma SameSlice(m: Memory, m': Memory, lo: nat, size: nat, a: nat, n: nat)
    requires SameOutside(m, m', lo, lo + size) && a + n <= SPACE && Apart(a, n, lo, size)
    ensures m'[a..a + n] == m[a..a + n]
  {
    assert forall x: word :: a <= x < a + n ==> m'[x] == m[x];
  }

  /** The file itself survives every run, so that it can be loaded again. */
  lemma FlashIntact(b: Parts, m: Memory, e: Env)
    requires WellFormed(b) && Programmed(b, m, e)
    ensures Ready(m, e) && Programmed(b, MemoryAfter(m, e), e)
  {
    hide *;
    ProgrammedParts(b, m, e);
    BuiltFileLoads(b, m, e);
    LinkImageSizes(b);
    var img, p := LinkImage(b), PlaceFor(b, e);
    LoadedFrame(img, p, m);
    if HasRoom(b, e) {
      SameSlice(m, MemoryAfter(m, e), p.ram, img.RamSpan(), e.binBase, b.Size());
    }
    ProgrammedAgain(b, m, MemoryAfter(m, e), e);
  }

  lemma ProgrammedParts(b: Parts, m: Memory, e: Env)
    requires WellFormed(b) && Programmed(b, m, e)
    ensures b.Encodable() && 0 <= b.Size() && e.binBase + b.Size() <= SPACE
    ensures PlaceFor(b, e).ram == e.ramStart && Apart(e.binBase, b.Size(), e.ramStart, RamTouch(b))
  {
  }

  lemma ProgrammedAgain(b: Parts, m: Memory, m': Memory, e: Env)
    requires b.Encodable() && Programmed(b, m, e) && 0 <= b.Size() && e.binBase + b.Size() <= SPACE
    requires m'[e.binBase..e.binBase + b.Size()] == m[e.binBase..e.binBase + b.Size()]
    ensures Programmed(b, m', e)
  {
  }

  /** Writing the file to flash programs it, whatever was in memory. */
  lemma WritingInFlash(b: Parts, m: Memory, e: Env)
    requires b.Encodable() && e.metadataOff == |b.crt0| && e.binBase + b.Size() < SPACE
    ensures InFlash(b, Splice(m, e.binBase, File(b)), e)
  {
    hide File, Parts.Size;
    var m' := Splice(m, e.binBase, File(b));
    assert m'[e.binBase..e.binBase + |File(b)|] == File(b);
  }

  lemma WritingPrograms(b: Parts, m: Memory, e: Env)
    requires b.Encodable() && e.metadataOff == |b.crt0| && e.binBase + b.Size() < SPACE
    requires e.ramStart + RamTouch(b) < SPACE && Apart(e.binBase, b.Size(), e.ramStart, RamTouch(b))
    ensures Programmed(b, Splice(m, e.binBase, File(b)), e)
  {
    hide File, Splice, InFlash;
    WritingInFlash(b, m, e);
  }

  // ----- A program that is let through without room -----

  /** Memory holds a right magic number and sizes that pass the RAM checks, but need more
      than there is. */
  ghost predicate Fooled(m: Memory, e: Env) {
    MagicOk(m, e) && RamOk(SectionsOf(m, e), e.ramEnd) && e.ramStart + RamNeeded(SectionsOf(m, e)) > e.ramEnd
  }

  /** Four bytes of .rom and a .ram of 0xF0000000 bytes. */
  function Greedy(): Parts {
    Parts([1, 2, 3, 4], Symbols(0, 4, 0, 0, 0xF000_0000), [0], 0, [1, 0, 0, 0])
  }

  lemma GreedyBuilt()
    ensures WellFormed(Greedy()) && FaultFree(Greedy()) && 0 <= Greedy().Size() <= 76
  {
    assert Greedy().Raw() == 16;
    hide Padding, LinkWord;
    assert Greedy().Encodable();
  }

  lemma GreedyFooled(m: Memory, e: Env)
    requires e == Env(0x0800_0000, 4, 0x2000_0000, 0x2000_1000)
    requires Greedy().Encodable() && InFlash(Greedy(), m, e)
    ensures Fooled(m, e)
  {
    var b := Greedy();
    assert |b.partition| == 4 && b.partition[0] == 1 && |b.table| == 1 && b.table[0] == 0;
    hide InFlash, Parts.Encodable, MagicOk, SectionsOf, RomAt;
    SectionsRoundTrip(b, m, e);
    WrapFools(PlaceFor(b, e).rom);
  }

  lemma WrapFools(rom: word)
    ensures var s := MakeSections(rom, 4, 0, 0, 0xF000_0000, 0x2000_0000);
      RamOk(s, 0x2000_1000) && RamNeeded(s) == 0xF000_0000
  {
  }

  /** Beyond the address space the comparisons accept a program that has no room at all, though
      nothing else is wrong with it: 4 KiB of RAM are enough for the program above. */
  lemma RamCheckFooledByWrap(m: Memory)
    ensures exists b: Parts, e: Env ::
      && WellFormed(b) && FaultFree(b) && e.binBase + b.Size() <= SPACE
      && Fooled(Splice(m, e.binBase, File(b)), e)
  {
    var b, e := Greedy(), Env(0x0800_0000, 4, 0x2000_0000, 0x2000_1000);
    assert |b.crt0| == 4;
    GreedyBuilt();
    WellFormedEncodable(b);
    hide Greedy, Parts.Size, Parts.Encodable, File, Splice, InFlash, Fooled, WellFormed, FaultFree;
    WritingInFlash(b, m, e);
    GreedyFooled(Splice(m, e.binBase, File(b)), e);
  }

  // ----- The loaded memory against the linked memory -----

  ghost predicate GotSlot(b: Parts, o: int) {
    var got := b.symbols.romSize;
    got <= o < got + b.symbols.gotSize && (o - got) % 4 == 0
  }

  ghost predicate ListedSlot(b: Parts, o: int)
    requires WellFormed(b)
  {
    exists i :: 0 < i < |b.table| && b.table[i] == o
  }

  /** A GOT entry or a listed pointer starts at offset o. */
  ghost predicate PointerAt(b: Parts, o: int)
    requires WellFormed(b)
  {
    GotSlot(b, o) || ListedSlot(b, o)
  }

  /** Offset o is one of the bytes of a pointer. */
  ghost predicate InPointer(b: Parts, o: int)
    requires WellFormed(b)
  {
    || b.symbols.romSize <= o < b.symbols.romSize + b.symbols.gotSize
    || exists i :: 0 < i < |b.table| && b.table[i] <= o < b.table[i] as int + 4
  }

  /** Listed pointers that overlap are to get the same bytes there once relocated; those that
      are equal or do not overlap always do. */
  ghost predicate Undisputed(b: Parts, e: Env)
    requires WellFormed(b)
  {
    Fits(LinkImage(b), PlaceFor(b, e)) && LinkImage(b).Valid() && Consistent(LinkImage(b), PlaceFor(b, e))
  }

  /** The program loads at e: there is room, no pointer goes wrong, and none is disputed. */
  ghost predicate Loads(b: Parts, m: Memory, e: Env) {
    WellFormed(b) && Programmed(b, m, e) && HasRoom(b, e) && FaultFree(b) && Undisputed(b, e)
  }

  /** Distinct pointers are undisputed at every place. */
  lemma DistinctUndisputed(b: Parts, m: Memory, e: Env)
    requires WellFormed(b) && Programmed(b, m, e) && Distinct(b)
    ensures Undisputed(b, e)
  {
    hide Consistent, LinkImage, Distinct, WellFormed, Programmed, Separate;
    BuiltFileLoads(b, m, e);
    DistinctSeparate(b);
    SeparateConsistent(LinkImage(b), PlaceFor(b, e));
  }

  /** Twelve bytes with a GOT entry for the start of .rom and a listed pointer to itself,
      and one to four bytes of .ram. */
  function Tiny(bssSize: nat): Parts {
    Parts([1, 2, 3, 4], Symbols(0, 4, 4, 4, bssSize), [1, 8], 0, [1, 0, 0, 0, 0, 0, 0, 0, 8, 0, 0, 0])
  }

  lemma TinyWellFormed(bssSize: nat)
    requires 0 < bssSize <= 4
    ensures WellFormed(Tiny(bssSize)) && 0 <= Tiny(bssSize).Size() <= 88
    ensures FaultFree(Tiny(bssSize)) && Distinct(Tiny(bssSize))
  {
    var b := Tiny(bssSize);
    assert b.Raw() == 28;
    hide Padding;
    assert b.Encodable();
    assert |b.table| == 2 && b.table[1] == 8 && |b.partition| == 12;
    hide LinkWord;
    TinyWords(b);
  }

  lemma TinyWords(b: Parts)
    requires b.partition == [1, 0, 0, 0, 0, 0, 0, 0, 8, 0, 0, 0]
    ensures LinkWord(b, 4) == 0 && LinkWord(b, 8) == 8
  {
    FromLEValue(0, 0, 0, 0);
    FromLEValue(8, 0, 0, 0);
    hide FromLE;
  }

  lemma TinyProgrammed(bssSize: nat, m: Memory, e: Env)
    requires 0 < bssSize <= 4 && e.binBase == 0x0800_0000 && e.metadataOff == 4 && e.ramStart == 0x2000_0000
    ensures var b := Tiny(bssSize);
      && WellFormed(b) && FaultFree(b) && Distinct(b) && e.binBase + b.Size() <= SPACE
      && Programmed(b, Splice(m, e.binBase, File(b)), e)
  {
    var b := Tiny(bssSize);
    assert |b.crt0| == 4 && RamTouch(b) <= 12;
    TinyWellFormed(bssSize);
    WellFormedEncodable(b);
    hide File, Splice, Tiny, WellFormed, FaultFree, Distinct, Programmed, Parts.Size, Parts.Encodable, RamTouch;
    WritingPrograms(b, m, e);
  }

  /** Some program, memory and place are as the theorems ask. */
  lemma SomethingLoads(m: Memory)
    ensures exists b: Parts, e: Env ::
      b.Encodable() && e.binBase + b.Size() <= SPACE && Loads(b, Splice(m, e.binBase, File(b)), e)
  {
    var b, e := Tiny(4), Env(0x0800_0000, 4, 0x2000_0000, 0x2000_1000);
    assert HasRoom(b, e);
    hide File, Splice, Tiny, WellFormed, FaultFree, Distinct, Programmed, Parts.Size, Undisputed, HasRoom;
    TinyProgrammed(4, m, e);
    WellFormedEncodable(b);
    DistinctUndisputed(b, Splice(m, e.binBase, File(b)), e);
    assert Loads(b, Splice(m, e.binBase, File(b)), e);
  }

  // ----- Stores behind the end of RAM -----

  /** b starts at e, and the byte at ram_end, which is not zero before, is zero afterwards. */
  ghost predicate Overruns(b: Parts, m: Memory, e: Env) {
    && WellFormed(b) && Programmed(b, m, e) && Ready(m, e) && OutcomeOf(m, e).Branch?
    && m[e.ramEnd] != 0 && MemoryAfter(m, e)[e.ramEnd] == 0
  }

  /** A .ram of one byte that just fits below ram_end: clearing it clears ram_end as well. */
  lemma OddRamOverruns()
    ensures exists b: Parts, m: Memory, e: Env :: Overruns(b, m, e)
  {
    var b, e := Tiny(1), Env(0x0800_0000, 4, 0x2000_0000, 0x2000_0009);
    var blank: Memory := seq(SPACE, _ => 1);
    assert RamNeed(b) == 9 && RamTouch(b) == 12;
    hide File, Splice, Tiny, WellFormed, FaultFree, Programmed, Distinct, Parts.Size, OutcomeOf, MemoryAfter, Ready,
         RamNeed, RamTouch;
    TinyProgrammed(1, blank, e);
    TinyWellFormed(1);
    WellFormedEncodable(b);
    var m := Splice(blank, e.binBase, File(b));
    Behind(blank, e.binBase, File(b), e.ramEnd);
    OverrunsIf(b, m, e);
    assert Overruns(b, m, e);
  }

  lemma Behind(m: Memory, a: nat, s: seq<byte>, x: word)
    requires a + |s| <= x
    ensures Splice(m, a, s)[x] == m[x]
  {
  }

  lemma OverrunsIf(b: Parts, m: Memory, e: Env)
    requires WellFormed(b) && Programmed(b, m, e) && FaultFree(b)
    requires e.ramEnd == e.ramStart + RamNeed(b) < e.ramStart + RamTouch(b)
    ensures Ready(m, e) && OutcomeOf(m, e).Branch? && MemoryAfter(m, e)[e.ramEnd] == 0
  {
    hide WellFormed, Programmed, FaultFree, OutcomeOf, MemoryAfter, Ready, LinkImage, Loaded, Verdict, Fits,
         Image.Valid, RamNeed, RamTouch;
    BuiltFileLoads(b, m, e);
    LinkImageSizes(b);
    ClearedBehind(LinkImage(b), PlaceFor(b, e), m, e.ramEnd);
  }

  /** The image holds the linker's word for a GOT slot, and a fault-free program bounds it. */
  lemma GotSlotImage(b: Parts, o: nat) returns (i: nat)
    requires WellFormed(b) && FaultFree(b) && GotSlot(b, o)
    ensures o == b.symbols.romSize + 4 * i && o + 4 <= |b.partition|
    ensures i < |LinkImage(b).got| && LinkImage(b).got[i] == LinkWord(b, o) && LinkWord(b, o) < Total(b)
  {
    i := (o - b.symbols.romSize) / 4;
    hide LinkWord, LinkTargets;
    assert GotWords(b)[i] == LinkWord(b, b.symbols.romSize + 4 * i);
  }

  lemma ListedSlotImage(b: Parts, o: nat) returns (i: nat)
    requires WellFormed(b) && FaultFree(b) && ListedSlot(b, o)
    ensures b.symbols.romSize + b.symbols.gotSize <= o && o + 4 <= |b.partition|
    ensures i < |LinkImage(b).slots| == |LinkImage(b).targets|
    ensures LinkImage(b).slots[i] == o && LinkImage(b).targets[i] == LinkWord(b, o) && LinkWord(b, o) < Total(b)
  {
    var k :| 0 < k < |b.table| && b.table[k] == o;
    i := k - 1;
    hide LinkWord, GotWords, LinkTargets;
    assert LinkImage(b).slots[i] == b.table[k] && LinkImage(b).targets[i] == LinkTarget(b, b.table[k]);
  }

  lemma LoadsGives(b: Parts, m: Memory, e: Env)
    requires Loads(b, m, e)
    ensures b.Encodable() && WellFormed(b) && Programmed(b, m, e) && HasRoom(b, e) && FaultFree(b)
    ensures LinkImage(b).Valid() && Fits(LinkImage(b), PlaceFor(b, e)) && Verdict(LinkImage(b)) == None
    ensures Consistent(LinkImage(b), PlaceFor(b, e))
  {
    assert b.Encodable();
    hide WellFormed, Programmed, FaultFree, Verdict, Consistent, LinkImage, Fits;
    FaultFreeExact(b);
  }

  lemma PartitionInTotal(b: Parts)
    ensures |b.partition| <= Total(b)
  {
  }

  lemma OffsetInSpace(b: Parts, m: Memory, e: Env, o: nat)
    requires Loads(b, m, e) && o < Total(b)
    ensures var img, p := LinkImage(b), PlaceFor(b, e);
      && Ready(m, e) && Reloc(img, p, o) < SPACE
      && (b.symbols.romSize <= o ==> Reloc(img, p, o) == p.ram + (o - b.symbols.romSize))
  {
    hide *;
    LoadsGives(b, m, e);
    BuiltFileLoads(b, m, e);
    LinkImageSizes(b);
    RelocInSpace(LinkImage(b), PlaceFor(b, e), o);
  }

  lemma GotSlotLoaded(b: Parts, m: Memory, e: Env, o: nat)
    requires Loads(b, m, e) && GotSlot(b, o)
    ensures o + 4 <= |b.partition| && b.symbols.romSize <= o && LinkWord(b, o) < Total(b)
    ensures Ready(m, e) && Reloc(LinkImage(b), PlaceFor(b, e), o) < SPACE
    ensures WordAt(MemoryAfter(m, e), Reloc(LinkImage(b), PlaceFor(b, e), o))
         == Reloc(LinkImage(b), PlaceFor(b, e), LinkWord(b, o))
  {
    hide *;
    LoadsGives(b, m, e);
    BuiltFileLoads(b, m, e);
    LinkImageSizes(b);
    PartitionInTotal(b);
    var i := GotSlotImage(b, o);
    OffsetInSpace(b, m, e, o);
    LoadedGot(LinkImage(b), PlaceFor(b, e), m, i);
  }

  lemma ListedSlotLoaded(b: Parts, m: Memory, e: Env, o: nat)
    requires Loads(b, m, e) && ListedSlot(b, o)
    ensures o + 4 <= |b.partition| && b.symbols.romSize + b.symbols.gotSize <= o && LinkWord(b, o) < Total(b)
    ensures Ready(m, e) && Reloc(LinkImage(b), PlaceFor(b, e), o) < SPACE
    ensures WordAt(MemoryAfter(m, e), Reloc(LinkImage(b), PlaceFor(b, e), o))
         == Reloc(LinkImage(b), PlaceFor(b, e), LinkWord(b, o))
  {
    hide *;
    LoadsGives(b, m, e);
    BuiltFileLoads(b, m, e);
    LinkImageSizes(b);
    PartitionInTotal(b);
    var i := ListedSlotImage(b, o);
    OffsetInSpace(b, m, e, o);
    LoadedSlot(LinkImage(b), PlaceFor(b, e), m, i);
  }

  /** Every pointer the linker left, in the GOT or listed, points after loading where it
      pointed before: both ends have moved by the same map. */
  lemma PointersRelocated(b: Parts, m: Memory, e: Env, o: nat)
    requires Loads(b, m, e) && PointerAt(b, o)
    ensures o + 4 <= |b.partition| && b.symbols.romSize <= o && LinkWord(b, o) < Total(b)
    ensures Ready(m, e) && Reloc(LinkImage(b), PlaceFor(b, e), o) < SPACE
    ensures WordAt(MemoryAfter(m, e), Reloc(LinkImage(b), PlaceFor(b, e), o))
         == Reloc(LinkImage(b), PlaceFor(b, e), LinkWord(b, o))
  {
    hide WordAt, MemoryAfter, LinkImage, LinkWord;
    if GotSlot(b, o) {
      GotSlotLoaded(b, m, e, o);
    } else {
      ListedSlotLoaded(b, m, e, o);
    }
  }

  /** .rom is not moved: its bytes are read from the partition in flash. */
  lemma RomBytePreserved(b: Parts, m: Memory, e: Env, o: nat)
    requires Loads(b, m, e) && o < b.symbols.romSize
    ensures Ready(m, e) && Reloc(LinkImage(b), PlaceFor(b, e), o) < SPACE
    ensures MemoryAfter(m, e)[Reloc(LinkImage(b), PlaceFor(b, e), o)] == LinkMemory(b)[o]
  {
    hide *;
    LoadsGives(b, m, e);
    FlashIntact(b, m, e);
    ProgrammedInFlash(b, MemoryAfter(m, e), e);
    PartsInFile(b, m, e);
    PartitionInTotal(b);
    OffsetInSpace(b, m, e, o);
    PartitionByte(b, MemoryAfter(m, e), e, o);
    RomInPlace(b, e, o);
  }

  lemma RomInPlace(b: Parts, e: Env, o: nat)
    requires WellFormed(b) && o < b.symbols.romSize
    ensures Reloc(LinkImage(b), PlaceFor(b, e), o) == PlaceFor(b, e).rom + o && LinkMemory(b)[o] == b.partition[o]
  {
  }

  /** .rom.ram outside pointers, and all of .ram, are copied and cleared. */
  lemma RamBytePreserved(b: Parts, m: Memory, e: Env, o: nat)
    requires Loads(b, m, e) && b.symbols.romSize + b.symbols.gotSize <= o < Total(b)
    requires WellFormed(b) && !InPointer(b, o)
    ensures Ready(m, e) && Reloc(LinkImage(b), PlaceFor(b, e), o) < SPACE
    ensures MemoryAfter(m, e)[Reloc(LinkImage(b), PlaceFor(b, e), o)] == LinkMemory(b)[o]
  {
    hide *;
    LoadsGives(b, m, e);
    BuiltFileLoads(b, m, e);
    LinkImageSizes(b);
    NotCovered(b, o);
    OffsetInSpace(b, m, e, o);
    LoadedOther(LinkImage(b), PlaceFor(b, e), m, o);
    LinkByte(b, o);
  }

  lemma LinkByte(b: Parts, o: nat)
    requires WellFormed(b) && b.symbols.romSize + b.symbols.gotSize <= o < Total(b)
    ensures var img := LinkImage(b);
      && img.DataAt() == b.symbols.romSize + b.symbols.gotSize && img.BssAt() == |b.partition|
      && (o < img.BssAt() ==> o - img.DataAt() < |img.data|)
      && LinkMemory(b)[o] == if o < img.BssAt() then img.data[o - img.DataAt()] else 0
  {
    LinkImageSizes(b);
    hide GotWords, LinkTargets;
  }

  /** Every other byte is the linker's: code and constants in flash, initial data and
      zeros in RAM. */
  lemma BytesPreserved(b: Parts, m: Memory, e: Env, o: nat)
    requires Loads(b, m, e) && o < Total(b) && !InPointer(b, o)
    ensures Ready(m, e) && Reloc(LinkImage(b), PlaceFor(b, e), o) < SPACE
    ensures MemoryAfter(m, e)[Reloc(LinkImage(b), PlaceFor(b, e), o)] == LinkMemory(b)[o]
  {
    assert !(b.symbols.romSize <= o < b.symbols.romSize + b.symbols.gotSize);
    hide *;
    LoadsGives(b, m, e);
    if o < b.symbols.romSize {
      RomBytePreserved(b, m, e, o);
    } else {
      RamBytePreserved(b, m, e, o);
    }
  }

  lemma NotCovered(b: Parts, o: nat)
    requires WellFormed(b) && !InPointer(b, o)
    ensures !Covered(LinkImage(b), o)
  {
    var img := LinkImage(b);
    forall i | 0 <= i < |img.slots|
      ensures !Covers(img, i, o)
    {
      assert img.slots[i] == b.table[i + 1];
    }
  }

  // ----- Chains of pointers -----

  /** The pointer met d bytes from o without leaving o's piece of the image. */
  ghost predicate Reaches(b: Parts, o: nat, d: int)
    requires WellFormed(b)
  {
    0 <= o + d && PointerAt(b, o + d) && b.symbols.romSize <= o
  }

  /** Following pointers in the linked memory from offset o: at each step move by a
      displacement within the piece, to a pointer, and dereference it. */
  ghost function LinkFollow(b: Parts, o: nat, path: seq<int>): Option<nat>
    requires WellFormed(b)
    decreases |path|
  {
    if path == [] then Some(o)
    else if Reaches(b, o, path[0]) && o + path[0] + 4 <= |b.partition| then
      LinkFollow(b, LinkWord(b, o + path[0]), path[1..])
    else None
  }

  /** The same walk by the running program, which only adds displacements and loads words. */
  function Follow(m: Memory, a: word, path: seq<int>): word
    decreases |path|
  {
    if path == [] then a else Follow(m, WordAt(m, (a + path[0]) % SPACE), path[1..])
  }

  lemma ReachesGives(b: Parts, o: nat, d: int)
    requires WellFormed(b) && Reaches(b, o, d)
    ensures 0 <= o + d && PointerAt(b, o + d) && b.symbols.romSize <= o
  {
    hide WellFormed, PointerAt;
  }

  /** One step: adding a displacement commutes with relocation within the RAM piece. */
  lemma StepPreserved(b: Parts, m: Memory, e: Env, o: nat, d: int)
    requires Loads(b, m, e) && o < Total(b) && WellFormed(b) && Reaches(b, o, d)
    ensures 0 <= o + d && o + d + 4 <= |b.partition| && LinkWord(b, o + d) < Total(b) && Ready(m, e)
    ensures var img, p := LinkImage(b), PlaceFor(b, e);
      && Reloc(img, p, o) < SPACE && Reloc(img, p, LinkWord(b, o + d)) < SPACE
      && WordAt(MemoryAfter(m, e), (Reloc(img, p, o) + d) % SPACE) == Reloc(img, p, LinkWord(b, o + d))
  {
    hide *;
    ReachesGives(b, o, d);
    PointersRelocated(b, m, e, o + d);
    PartitionInTotal(b);
    OffsetInSpace(b, m, e, o);
    OffsetInSpace(b, m, e, o + d);
    OffsetInSpace(b, m, e, LinkWord(b, o + d));
    var img, p := LinkImage(b), PlaceFor(b, e);
    WrapSmall(Reloc(img, p, o + d));
    assert Reloc(img, p, o) + d == Reloc(img, p, o + d);
  }

  lemma WrapSmall(x: nat)
    requires x < SPACE
    ensures x % SPACE == x
  {
  }

  /** Whatever chain the linked program has, the loaded program has: it ends at the
      relocation of the offset where the linked chain ends. */
  lemma {:induction false} PathsPreserved(b: Parts, m: Memory, e: Env, o: nat, path: seq<int>)
    requires Loads(b, m, e) && o < Total(b) && LinkFollow(b, o, path).Some?
    ensures LinkFollow(b, o, path).value < Total(b) && Ready(m, e)
    ensures var img, p := LinkImage(b), PlaceFor(b, e);
      && Reloc(img, p, o) < SPACE
      && Follow(MemoryAfter(m, e), Reloc(img, p, o), path) == Reloc(img, p, LinkFollow(b, o, path).value)
    decreases |path|
  {
    hide WordAt, MemoryAfter, LinkImage, LinkWord, Reloc, Reaches, PlaceFor, Ready, Loads;
    if path == [] {
      OffsetInSpace(b, m, e, o);
    } else {
      LoadsGives(b, m, e);
      StepPreserved(b, m, e, o, path[0]);
      PathsPreserved(b, m, e, LinkWord(b, o + path[0]), path[1..]);
    }
  }

  /** Two chains meet in the loaded program exactly when they meet in the linked one. */
  lemma PathsIsomorphic(b: Parts, m: Memory, e: Env, o: nat, path: seq<int>, o': nat, path': seq<int>)
    requires Loads(b, m, e) && o < Total(b) && o' < Total(b)
    requires LinkFollow(b, o, path).Some? && LinkFollow(b, o', path').Some?
    ensures Ready(m, e)
    ensures var img, p := LinkImage(b), PlaceFor(b, e);
      && Reloc(img, p, o) < SPACE && Reloc(img, p, o') < SPACE
      && (Follow(MemoryAfter(m, e), Reloc(img, p, o), path) == Follow(MemoryAfter(m, e), Reloc(img, p, o'), path')
          <==> LinkFollow(b, o, path) == LinkFollow(b, o', path'))
  {
    PathsPreserved(b, m, e, o, path);
    PathsPreserved(b, m, e, o', path');
    BuiltFileLoads(b, m, e);
    LinkImageSizes(b);
    hide MemoryAfter, Loaded, LinkFollow, Follow, Verdict, LinkImage;
    RelocInjective(LinkImage(b), PlaceFor(b, e), LinkFollow(b, o, path).value, LinkFollow(b, o', path').value);
  }

  // ----- Two runs -----

  /** Wrap-around, by a multiple of 2^32, keeps parities. */
  lemma ThumbOffset(base: word, at: nat, start: word)
    requires base + at < SPACE
    ensures var k := at + start + 1 - (base + at + start) % 2;
      Sub(ThumbAddress(Add(base + at, start)), base) == if k < SPACE then k else k - SPACE
  {
    var x := Add(base + at, start);
    assert x % 2 == (base + at + start) % 2;
    hide Or, And;
  }

  lemma EntryShift(b: Parts, e: Env, e': Env)
    requires e.binBase + b.PartitionAt() < SPACE && e'.binBase + b.PartitionAt() < SPACE && b.symbols.start < SPACE
    requires e.binBase % 2 == e'.binBase % 2
    ensures Sub(ThumbAddress(Add(PlaceFor(b, e).rom, b.symbols.start)), e.binBase)
         == Sub(ThumbAddress(Add(PlaceFor(b, e').rom, b.symbols.start)), e'.binBase)
  {
    hide ThumbAddress, Add, Sub;
    var k := b.PartitionAt() + b.symbols.start;
    ThumbOffset(e.binBase, b.PartitionAt(), b.symbols.start);
    ThumbOffset(e'.binBase, b.PartitionAt(), b.symbols.start);
    assert (e.binBase + k) % 2 == (e'.binBase + k) % 2;
  }

  /** Loaded with room at two places, a file ends the same way: it dies of the same error
      or branches to the same offset from bin_base, wherever the entry point lies. */
  lemma SameOutcomeAnywhere(b: Parts, m: Memory, e: Env, m': Memory, e': Env)
    requires WellFormed(b) && Programmed(b, m, e) && Programmed(b, m', e') && HasRoom(b, e) && HasRoom(b, e')
    ensures Ready(m, e) && Ready(m', e')
    ensures OutcomeOf(m, e).Die? ==> OutcomeOf(m', e') == OutcomeOf(m, e)
    ensures OutcomeOf(m, e).Branch? <==> OutcomeOf(m', e').Branch?
    ensures OutcomeOf(m, e).Branch? && e.binBase % 2 == e'.binBase % 2 ==>
      Sub(OutcomeOf(m, e).entry, e.binBase) == Sub(OutcomeOf(m', e').entry, e'.binBase)
  {
    hide OutcomeOf, MemoryAfter, Loaded, Verdict, LinkImage, File, ThumbAddress, Fits, WellFormed, Ready,
         Programmed, Add, Sub, Parts.Size;
    BuiltFileLoads(b, m, e);
    BuiltFileLoads(b, m', e');
    PartsInFile(b, m, e);
    PartsInFile(b, m', e');
    if e.binBase % 2 == e'.binBase % 2 {
      WellFormedEncodable(b);
      EntryShift(b, e, e');
    }
  }

  lemma WellFormedEncodable(b: Parts)
    requires WellFormed(b)
    ensures b.Encodable() && b.symbols.start < SPACE
  {
  }

  /** The two memories differ only in what pointers must differ in: byte for byte equal
      elsewhere, and each pointer of one is the other's, taken back to its offset and
      relocated again. */
  lemma PositionIndependent(b: Parts, m: Memory, e: Env, m': Memory, e': Env, o: nat)
    requires Loads(b, m, e) && Loads(b, m', e') && o < Total(b)
    ensures Ready(m, e) && Ready(m', e')
    ensures var img, p, p' := LinkImage(b), PlaceFor(b, e), PlaceFor(b, e');
      && Reloc(img, p, o) < SPACE && Reloc(img, p', o) < SPACE
      && (!InPointer(b, o) ==>
           MemoryAfter(m', e')[Reloc(img, p', o)] == MemoryAfter(m, e)[Reloc(img, p, o)])
      && (PointerAt(b, o) ==>
           && Unreloc(img, p, WordAt(MemoryAfter(m, e), Reloc(img, p, o))) >= 0
           && WordAt(MemoryAfter(m', e'), Reloc(img, p', o))
                == Reloc(img, p', Unreloc(img, p, WordAt(MemoryAfter(m, e), Reloc(img, p, o)))))
  {
    hide *;
    OffsetInSpace(b, m, e, o);
    OffsetInSpace(b, m', e', o);
    LoadsGives(b, m, e);
    if PointerAt(b, o) {
      PointersRelocated(b, m, e, o);
      PointersRelocated(b, m', e', o);
      LinkImageSizes(b);
      RelocInverse(LinkImage(b), PlaceFor(b, e), LinkWord(b, o));
    }
    if !InPointer(b, o) {
      BytesPreserved(b, m, e, o);
      BytesPreserved(b, m', e', o);
    }
  }

  // ----- Where the free memory begins afterwards, and alignment -----

  lemma RoundMultiple(end: word)
    requires end % 32 == 0
    ensures Round32(end, 32) == end
  {
    hide Round, Round32, And;
    assert IsPow2(32) by { assert Pow2(5) == 32; }
    RoundIsLeastMultiple(end, 32);
    RoundAgrees(end, 32);
  }

  lemma SizeIsMultiple(b: Parts)
    ensures 0 <= b.Size() && b.Size() % 32 == 0
  {
    SizeIsLeastMultiple(b);
  }

  lemma SumMultiple(x: nat, y: nat)
    requires x % 32 == 0 && y % 32 == 0
    ensures (x + y) % 32 == 0
  {
  }

  /** A binary on an MPU boundary leaves free flash to begin right behind it. */
  lemma FreeFlashFollows(b: Parts, m: Memory, e: Env)
    requires b.Encodable() && InFlash(b, m, e) && e.binBase % 32 == 0
    ensures Round32(EndAt(m, e), 32) == e.binBase + b.Size()
  {
    hide *;
    SizeFound(b, m, e);
    SizeIsMultiple(b);
    SumMultiple(e.binBase, b.Size());
    RoundMultiple(EndAt(m, e));
  }

  /** Word-sized parts at word-aligned places make every word access of the loader aligned. */
  lemma BuiltFileAligned(b: Parts, m: Memory, e: Env)
    requires WellFormed(b) && Programmed(b, m, e)
    requires |b.crt0| % 4 == 0 && b.PartitionAt() % 4 == 0 && e.binBase % 4 == 0 && e.ramStart % 4 == 0
    requires b.symbols.romSize % 4 == 0 && b.symbols.dataSize % 4 == 0
    requires forall i :: 0 < i < |b.table| ==> b.table[i] % 4 == 0
    ensures WordAligned(m, e)
  {
    hide File, MagicOk, SectionsOf, LayoutSound, RamOk, RomAt, SlotAt, TableEnd, EntryCount, WordAt, MetaAt, Footer,
         Parts.Size, Parts.PartitionAt, Parts.Encodable, InFlash;
    ProgrammedInFlash(b, m, e);
    SectionsRoundTrip(b, m, e);
    TableRoundTrip(b, m, e);
    SizeWordFound(b, m, e);
    SizeWordAligned(b);
    SumAligned(e.binBase, b.PartitionAt());
  }

  lemma SumAligned(x: nat, y: nat)
    requires x % 4 == 0 && y % 4 == 0
    ensures (x + y) % 4 == 0
  {
  }

  lemma SizeWordFound(b: Parts, m: Memory, e: Env)
    requires b.Encodable() && InFlash(b, m, e)
    ensures WordAt(m, MetaAt(e)) == b.Size()
  {
    SizeFound(b, m, e);
    hide WordAt, File, MetaAt;
  }

  lemma SizeWordAligned(b: Parts)
    ensures b.Size() % 4 == 0
  {
    hide *;
    SizeIsMultiple(b);
    assert b.Size() == 4 * (8 * (b.Size() / 32));
  }
}
