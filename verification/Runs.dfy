/** What a run leaves in memory, read off the bytes it starts from, whether it gets to the end or
    dies on the way. */
module Runs {
  import opened Words
  import opened Masks
  import opened Memories
  import opened Images
  import opened Crt0
  import opened Phases

  /** The run is past the magic number and the RAM checks. */
  ghost predicate PastChecks(m: Memory, e: Env)
  {
    Ready(m, e) && OutcomeOf(m, e) != Die(InvalidVersion) && OutcomeOf(m, e) != Die(NotEnoughRam)
  }

  /** Where an offset into the image ends up: .rom stays in flash, the rest moves to RAM. */
  function Moved(h: Header, e: Env, offset: int): int {
    if offset < h.romSize then h.rom + offset else e.ramStart + (offset - h.romSize)
  }

  /** Table entry j is the offset of a pointer in .rom.ram or .ram to something outside .got. */
  ghost predicate Good(m: Memory, h: Header, j: nat) {
    var data, total := h.romSize + h.gotSize, h.romSize + h.gotSize + h.dataSize + h.bssSize;
    var slot := WordBehind(m, h.meta + 8, j);
    var target := WordAt(m, Add(h.rom, slot));
    data <= slot < total && target < total && !(h.romSize <= target < data)
  }

  /** The run gets through g GOT entries and, if these are all, through k table entries. */
  ghost predicate GetsThrough(m: Memory, h: Header, g: nat, k: nat) {
    var got, total := h.rom + h.romSize, h.romSize + h.gotSize + h.dataSize + h.bssSize;
    && g <= h.gotSize / 4 && (forall j :: 0 <= j < g ==> WordBehind(m, got, j) < total)
    && (g < h.gotSize / 4 ==> WordBehind(m, got, g) >= total && k == 0)
    && k <= h.count && (forall j :: 0 <= j < k ==> Good(m, h, j))
    && (g == h.gotSize / 4 && k < h.count ==> !Good(m, h, k))
  }

  /** What a caller of `_start` has to provide, in the header's numbers; `span` is the RAM that will be
      written, whole words of .ram included. */
  lemma ReadyExact(m: Memory, e: Env, h: Header, z: nat, span: nat, layout: bool)
    requires HeaderAt(m, e, h, z) && span == h.gotSize + h.dataSize + (h.bssSize + 3) / 4 * 4
    requires var entries, data, flash, total := h.meta + 8, h.romSize + h.gotSize,
        h.romSize + h.gotSize + h.dataSize, h.romSize + h.gotSize + h.dataSize + h.bssSize;
      layout ==
        (&& h.gotSize % 4 == 0 && e.ramStart + span < SPACE && h.rom + flash < SPACE
         && h.meta + 8 + 4 * h.count <= SPACE
         && (h.rom + flash <= e.ramStart || e.ramStart + span <= h.rom)
         && (h.meta + 8 + 4 * h.count <= e.ramStart || e.ramStart + span <= h.meta)
         && forall i :: 0 <= i < h.count ==>
              var slot := WordBehind(m, entries, i);
              data <= slot < total ==>
                && slot as int + 4 <= total && h.rom + slot + 4 <= SPACE
                && (h.rom + slot + 4 <= e.ramStart || e.ramStart + span <= h.rom + slot))
    ensures Ready(m, e) <==> (MagicOk(m, e) && RamOk(SectionsOf(m, e), e.ramEnd) ==> layout)
  {
    hide WordAt, WordBehind, RamOk, MagicOk, SectionsOf, HeaderAt, RomAt, Footer, EntryCount, MetaAt, Up4, SlotSound,
         SlotAt;
    if MagicOk(m, e) {
      HeaderExact(m, e, h, z);
      Up4Value(h.bssSize);
      var s := SectionsOf(m, e);
      assert RamTouched(s) == span && FlashSize(s) == h.romSize + h.gotSize + h.dataSize;
      if layout {
        forall i | 0 <= i < h.count
          ensures SlotSound(s, e, SlotAt(m, e, i))
        {
          SlotSoundIs(m, e, s, h, span, i);
        }
      }
      if LayoutSound(m, e) {
        var entries := h.meta + 8;
        forall i | 0 <= i < h.count
          ensures var slot := WordBehind(m, entries, i);
            h.romSize + h.gotSize <= slot < h.romSize + h.gotSize + h.dataSize + h.bssSize ==>
              && slot as int + 4 <= h.romSize + h.gotSize + h.dataSize + h.bssSize && h.rom + slot + 4 <= SPACE
              && (h.rom + slot + 4 <= e.ramStart || e.ramStart + span <= h.rom + slot)
        {
          assert SlotSound(s, e, SlotAt(m, e, i));
          SlotSoundIs(m, e, s, h, span, i);
        }
      }
    }
  }

  lemma SlotSoundIs(m: Memory, e: Env, s: Sections, h: Header, span: nat, i: nat)
    requires MetaAt(e) == h.meta && h.meta + 8 + 4 * h.count <= SPACE && i < h.count
    requires s.rom == h.rom && s.romSize == h.romSize && s.gotSize == h.gotSize && s.dataSize == h.dataSize
    requires s.bssSize == h.bssSize && RamTouched(s) == span
    ensures SlotSound(s, e, SlotAt(m, e, i)) <==>
      var slot := WordBehind(m, h.meta + 8, i);
      h.romSize + h.gotSize <= slot < h.romSize + h.gotSize + h.dataSize + h.bssSize ==>
        && slot as int + 4 <= h.romSize + h.gotSize + h.dataSize + h.bssSize && h.rom + slot + 4 <= SPACE
        && (h.rom + slot + 4 <= e.ramStart || e.ramStart + span <= h.rom + slot)
  {
    hide WordAt, WordBehind, MetaAt, RamTouched;
    BehindInside(m, h.meta + 8, i);
  }

  lemma ChecksPassed(m: Memory, e: Env)
    requires PastChecks(m, e)
    ensures MagicOk(m, e) && RamOk(SectionsOf(m, e), e.ramEnd) && LayoutSound(m, e)
    ensures ImageOf(m, e).Valid() && Fits(ImageOf(m, e), PlaceOf(m, e))
    ensures MemoryAfter(m, e) == Loaded(ImageOf(m, e), PlaceOf(m, e), m)
  {
    hide MagicOk, RamOk, SectionsOf, LayoutSound, ImageOf, PlaceOf, Loaded, Fits, RomAt, Footer, OutcomeOf;
    OutcomeParts(m, e);
    ImageSound(m, e);
  }

  /** The image in memory, in the header's numbers. */
  lemma ImageIs(m: Memory, e: Env, h: Header, z: nat)
    requires MagicOk(m, e) && LayoutSound(m, e) && HeaderAt(m, e, h, z)
    ensures PlaceOf(m, e) == Place(h.rom, e.ramStart)
    ensures var img := ImageOf(m, e);
      && img.romSize == h.romSize && img.GotSize() == h.gotSize && img.DataAt() == h.romSize + h.gotSize
      && img.BssAt() == h.romSize + h.gotSize + h.dataSize && |img.data| == h.dataSize && img.bssSize == h.bssSize
      && img.Total() == h.romSize + h.gotSize + h.dataSize + h.bssSize
      && |img.got| == h.gotSize / 4 && |img.slots| == |img.targets| == h.count
      && h.rom + h.romSize + h.gotSize + h.dataSize < SPACE && h.gotSize % 4 == 0
  {
    hide WordAt, MagicOk, SectionsOf, LayoutSound, ImageOf, RomAt, Footer, HeaderAt, EntryCount, MetaAt, SlotAt;
    HeaderExact(m, e, h, z);
    ImageSizes(m, e);
    ImageParts(m, e);
    ImageWords(m, e);
    LayoutFits(m, e);
  }

  lemma GotWordIs(m: Memory, e: Env, h: Header, z: nat, i: nat)
    requires MagicOk(m, e) && LayoutSound(m, e) && HeaderAt(m, e, h, z) && i < h.gotSize / 4
    ensures i < |ImageOf(m, e).got| && ImageOf(m, e).got[i] == WordBehind(m, h.rom + h.romSize, i)
  {
    hide WordAt, MagicOk, SectionsOf, LayoutSound, ImageOf, RomAt, Footer, HeaderAt, EntryCount, MetaAt, SlotAt,
         WordBehind;
    HeaderExact(m, e, h, z);
    ImageIs(m, e, h, z);
    ImageWords(m, e);
    BehindInside(m, h.rom + h.romSize, i);
  }

  lemma EntryIs(m: Memory, e: Env, h: Header, z: nat, j: nat)
    requires MagicOk(m, e) && LayoutSound(m, e) && HeaderAt(m, e, h, z) && j < h.count
    ensures var img := ImageOf(m, e);
      && |img.slots| == |img.targets| == h.count && img.slots[j] == WordBehind(m, h.meta + 8, j)
      && (SlotOk(img, j) <==> Good(m, h, j))
      && (SlotOk(img, j) ==> img.targets[j] == WordAt(m, Add(h.rom, img.slots[j])))
  {
    hide WordAt, MagicOk, SectionsOf, LayoutSound, ImageOf, RomAt, Footer, HeaderAt, EntryCount, MetaAt, SlotAt,
         WordBehind, Add;
    var slot := WordBehind(m, h.meta + 8, j);
    HeaderExact(m, e, h, z);
    EntryExact(m, e, h, z, j, slot, WordAt(m, Add(h.rom, slot)));
    EntryFineExact(m, e, j);
    ImageIs(m, e, h, z);
    ImageWords(m, e);
  }

  lemma ThroughIsProgress(m: Memory, e: Env, h: Header, z: nat, g: nat, k: nat)
    requires MagicOk(m, e) && LayoutSound(m, e) && HeaderAt(m, e, h, z) && GetsThrough(m, h, g, k)
    ensures |ImageOf(m, e).slots| == |ImageOf(m, e).targets| == h.count && |ImageOf(m, e).got| == h.gotSize / 4
    ensures Progress(ImageOf(m, e), g, k)
  {
    hide WordAt, MagicOk, LayoutSound, ImageOf, HeaderAt, WordBehind, Good, FirstBadGot, FirstBadSlot, SlotOk;
    var img := ImageOf(m, e);
    ImageIs(m, e, h, z);
    forall j | 0 <= j < |img.got|
      ensures img.got[j] == WordBehind(m, h.rom + h.romSize, j)
    {
      GotWordIs(m, e, h, z, j);
    }
    forall j | 0 <= j < h.count
      ensures SlotOk(img, j) <==> Good(m, h, j)
    {
      EntryIs(m, e, h, z, j);
    }
    FirstBadGotIs(img, g);
    if g == |img.got| {
      FirstBadSlotIs(img, k);
    }
  }

  /** The GOT of a run past the checks, f being the memory afterwards: the entries it got through
      hold where their link-time values moved, the others are as they were. */
  lemma GotExactly(m: Memory, e: Env, h: Header, z: nat, g: nat, k: nat, f: Memory)
    requires PastChecks(m, e) && HeaderAt(m, e, h, z) && GetsThrough(m, h, g, k) && f == MemoryAfter(m, e)
    ensures var got, ram := h.rom + h.romSize, e.ramStart;
      forall i :: 0 <= i < g ==> WordBehind(f, ram, i) == Moved(h, e, WordBehind(m, got, i))
    ensures forall x: word :: e.ramStart + 4 * g <= x < e.ramStart + h.gotSize ==> f[x] == m[x]
  {
    hide WordAt, MagicOk, LayoutSound, ImageOf, HeaderAt, WordBehind, GetsThrough, Progress, MemoryAfter, Loaded,
         PlaceOf, PastChecks, RamOk, SectionsOf;
    ChecksPassed(m, e);
    ImageIs(m, e, h, z);
    ThroughIsProgress(m, e, h, z, g, k);
    var img, p := ImageOf(m, e), PlaceOf(m, e);
    GotAfter(img, p, m, g, k);
    forall i | 0 <= i < g
      ensures WordBehind(f, e.ramStart, i) == Moved(h, e, WordBehind(m, h.rom + h.romSize, i))
    {
      GotWordIs(m, e, h, z, i);
      BehindInside(f, e.ramStart, i);
    }
  }

  /** Byte o of the image, behind .got, after a run past the checks, if no table entry that the run
      got through covers it: the byte in flash, or zero in .ram. */
  lemma BytesExactly(m: Memory, e: Env, h: Header, z: nat, g: nat, k: nat, f: Memory, o: nat)
    requires PastChecks(m, e) && HeaderAt(m, e, h, z) && GetsThrough(m, h, g, k) && f == MemoryAfter(m, e)
    requires h.romSize + h.gotSize <= o < h.romSize + h.gotSize + h.dataSize + h.bssSize
    requires var entries := h.meta + 8;
      forall i :: 0 <= i < k ==> !(WordBehind(m, entries, i) <= o < WordBehind(m, entries, i) as int + 4)
    ensures 0 <= Moved(h, e, o) < SPACE && (o < h.romSize + h.gotSize + h.dataSize ==> h.rom + o < SPACE)
    ensures f[Moved(h, e, o)] == if o < h.romSize + h.gotSize + h.dataSize then m[h.rom + o] else 0
  {
    hide WordAt, MagicOk, LayoutSound, ImageOf, HeaderAt, WordBehind, GetsThrough, Progress, MemoryAfter, Loaded,
         PlaceOf, PastChecks, RamOk, SectionsOf, PatchByte, Good, SlotOk;
    ChecksPassed(m, e);
    ImageIs(m, e, h, z);
    ThroughIsProgress(m, e, h, z, g, k);
    var img, p := ImageOf(m, e), PlaceOf(m, e);
    ThroughCount(m, h, g, k);
    forall i | 0 <= i < k
      ensures !Covers(img, i, o)
    {
      EntryIs(m, e, h, z, i);
    }
    BytesAfter(img, p, m, g, k, o);
    if o < h.romSize + h.gotSize + h.dataSize {
      DataIs(m, e, h, z, o);
    }
  }

  lemma ThroughCount(m: Memory, h: Header, g: nat, k: nat)
    requires GetsThrough(m, h, g, k)
    ensures g <= h.gotSize / 4 && k <= h.count
    ensures forall j :: 0 <= j < k ==> Good(m, h, j)
  {
    hide Good, WordBehind;
  }

  /** Offsets of entries gone through, and of what they point to, move to addresses. */
  lemma MovedInSpace(m: Memory, e: Env, h: Header, z: nat, o: nat)
    requires PastChecks(m, e) && HeaderAt(m, e, h, z)
    requires o < h.romSize + h.gotSize + h.dataSize + h.bssSize
    ensures 0 <= Moved(h, e, o) < SPACE
  {
    hide WordAt, MagicOk, LayoutSound, ImageOf, HeaderAt, PlaceOf, PastChecks, RamOk, SectionsOf;
    ChecksPassed(m, e);
    ImageIs(m, e, h, z);
    RelocInSpace(ImageOf(m, e), PlaceOf(m, e), o);
  }

  /** Address `at` of byte o of the image, if entry i is the last that covers it of those the run got
      through: a byte of where its link-time value moved, w. */
  lemma PatchedExactly(m: Memory, e: Env, h: Header, z: nat, g: nat, k: nat, f: Memory, i: nat, o: nat, at: word,
                       w: word)
    requires PastChecks(m, e) && HeaderAt(m, e, h, z) && GetsThrough(m, h, g, k) && f == MemoryAfter(m, e)
    requires i < k && var slot := WordBehind(m, h.meta + 8, i);
      && slot <= o < slot as int + 4 && at == Moved(h, e, o) && w == Moved(h, e, WordAt(m, Add(h.rom, slot)))
    requires var entries := h.meta + 8;
      forall j :: i < j < k ==> !(WordBehind(m, entries, j) <= o < WordBehind(m, entries, j) as int + 4)
    ensures f[at] == ByteOf(w, o - WordBehind(m, h.meta + 8, i))
  {
    hide *;
    ChecksPassed(m, e);
    ImageIs(m, e, h, z);
    ThroughIsProgress(m, e, h, z, g, k);
    var img, p := ImageOf(m, e), PlaceOf(m, e);
    ThroughCount(m, h, g, k);
    EntryIs(m, e, h, z, i);
    SlotCovers(img, i, o);
    forall j | i < j < k
      ensures !Covers(img, j, o)
    {
      EntryIs(m, e, h, z, j);
      SlotCovers(img, j, o);
    }
    CoveredInRam(img, i, o);
    BytesAfter(img, p, m, g, k, o);
    TargetMoved(img, p, i, o);
    MovedIs(img, p, h, e, o);
    MovedIs(img, p, h, e, img.targets[i]);
  }

  lemma SlotCovers(img: Image, i: nat, o: int)
    requires i < |img.slots|
    ensures Covers(img, i, o) <==> img.slots[i] <= o < img.slots[i] as int + 4
  {
  }

  lemma MovedIs(img: Image, p: Place, h: Header, e: Env, o: nat)
    requires img.romSize == h.romSize && p == Place(h.rom, e.ramStart)
    ensures Reloc(img, p, o) == Moved(h, e, o)
  {
  }

  lemma TargetMoved(img: Image, p: Place, i: nat, o: nat)
    requires Fits(img, p) && i < |img.slots| == |img.targets| && SlotOk(img, i) && Covers(img, i, o)
    ensures Reloc(img, p, img.targets[i]) < SPACE
    ensures PatchByte(img, p, i, o) == ByteOf(Reloc(img, p, img.targets[i]), o - img.slots[i])
  {
  }

  /** Nothing else changes, but for the rest of the last word of .ram, which is zero. */
  lemma RestExactly(m: Memory, e: Env, h: Header, z: nat, f: Memory, end: nat, stop: nat)
    requires PastChecks(m, e) && HeaderAt(m, e, h, z) && f == MemoryAfter(m, e)
    requires end == e.ramStart + h.gotSize + h.dataSize + h.bssSize
    requires stop == e.ramStart + h.gotSize + h.dataSize + (h.bssSize + 3) / 4 * 4
    ensures forall x: word :: x < e.ramStart || stop <= x ==> f[x] == m[x]
    ensures forall x: word :: end <= x < stop ==> f[x] == 0
  {
    hide WordAt, MagicOk, LayoutSound, ImageOf, HeaderAt, MemoryAfter, Loaded, PlaceOf, PastChecks, RamOk, SectionsOf,
         Up4;
    ChecksPassed(m, e);
    ImageIs(m, e, h, z);
    var img, p := ImageOf(m, e), PlaceOf(m, e);
    Up4Value(h.bssSize);
    LoadedFrame(img, p, m);
    forall x: word | end <= x < stop
      ensures f[x] == 0
    {
      ClearedBehind(img, p, m, x);
    }
  }

  lemma Up4Value(n: nat)
    ensures Up4(n) == (n + 3) / 4 * 4
  {
  }

  /** What `_start` stores in the context, in the header's numbers. */
  lemma ContextExactly(m: Memory, e: Env, h: Header, z: nat)
    requires PastChecks(m, e) && HeaderAt(m, e, h, z)
    ensures MagicOk(m, e) && EndAt(m, e) == h.end
    ensures RamNeeded(SectionsOf(m, e)) == h.gotSize + h.dataSize + h.bssSize
    ensures RamTouched(SectionsOf(m, e)) == h.gotSize + h.dataSize + (h.bssSize + 3) / 4 * 4
    ensures SectionsOf(m, e).bssSize == h.bssSize
    ensures Round32(EndAt(m, e), 32) == if h.end % 32 == 0 then h.end else (h.end - h.end % 32 + 32) % SPACE
  {
    hide WordAt, MagicOk, LayoutSound, HeaderAt, PastChecks, RamOk, SectionsOf, EndAt, Up4, Round32, RomAt, Add;
    ChecksPassed(m, e);
    HeaderExact(m, e, h, z);
    Up4Value(h.bssSize);
    Round32Exact(h.end);
  }

  /** How far a run gets is settled by memory. */
  lemma Through(m: Memory, h: Header) returns (g: nat, k: nat)
    ensures GetsThrough(m, h, g, k)
  {
    var got, total := h.rom + h.romSize, h.romSize + h.gotSize + h.dataSize + h.bssSize;
    hide WordBehind, Good;
    g := 0;
    while g < h.gotSize / 4 && WordBehind(m, got, g) < total
      invariant g <= h.gotSize / 4 && forall j :: 0 <= j < g ==> WordBehind(m, got, j) < total
    {
      g := g + 1;
    }
    k := 0;
    if g == h.gotSize / 4 {
      while k < h.count && Good(m, h, k)
        invariant k <= h.count && forall j :: 0 <= j < k ==> Good(m, h, j)
      {
        k := k + 1;
      }
    }
  }

  lemma DataIs(m: Memory, e: Env, h: Header, z: nat, o: nat)
    requires MagicOk(m, e) && LayoutSound(m, e) && HeaderAt(m, e, h, z)
    requires h.romSize + h.gotSize <= o < h.romSize + h.gotSize + h.dataSize
    ensures |ImageOf(m, e).data| == h.dataSize && h.rom + o < SPACE
    ensures ImageOf(m, e).data[o - (h.romSize + h.gotSize)] == m[h.rom + o]
  {
    hide WordAt, MagicOk, SectionsOf, LayoutSound, ImageOf, RomAt, Footer, HeaderAt, EntryCount, MetaAt, SlotAt;
    HeaderExact(m, e, h, z);
    ImageParts(m, e);
  }
}
