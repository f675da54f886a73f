/** The software image as the loader sees it, the relocation map, and the memory a load
    leaves behind: which words are rewritten, with what, and what stays as it was. */
module Images {
  import opened Words
  import opened Memories

  /** Reasons to die, by identifier 0 to 4. */
  datatype Error = InvalidVersion | NotEnoughRam | OutOfBounds | InRom | InGot

  /** Offsets into the image run over .rom, .got, .rom.ram and .ram in that order. `got`,
      `slots` and `targets` are the words found in flash: the GOT entries, the offsets of
      the pointers to patch, and the link-time values of those pointers. */
  datatype Image = Image(romSize: nat, got: seq<word>, data: seq<byte>, bssSize: nat,
                         slots: seq<word>, targets: seq<word>)
  {
    function GotSize(): nat { 4 * |got| }
    function DataAt(): nat { romSize + GotSize() }
    function BssAt(): nat { DataAt() + |data| }
    function Total(): nat { BssAt() + bssSize }
    function RamSize(): nat { Total() - romSize }

    /** .ram is cleared by whole words: up to three bytes behind it are, too. */
    function RamSpan(): (r: nat)
      ensures RamSize() <= r < RamSize() + 4
    {
      GotSize() + |data| + Up4(bssSize)
    }

    /** Every slot that starts in .rom.ram or .ram ends there. */
    ghost predicate Valid() {
      && |slots| == |targets|
      && forall i :: 0 <= i < |slots| && DataAt() <= slots[i] < Total() ==> slots[i] as int + 4 <= Total()
    }
  }

  /** Where the image lands: .rom stays in flash at `rom`, the rest moves to `ram`. */
  datatype Place = Place(rom: nat, ram: nat)

  /** The flash part (all but .ram) and the RAM part lie in the address space, apart. */
  ghost predicate Fits(img: Image, p: Place) {
    && p.rom + img.BssAt() <= SPACE
    && p.ram + img.RamSpan() < SPACE
    && Apart(p.rom, img.BssAt(), p.ram, img.RamSpan())
  }

  /** The relocation map: one translation for .rom, one for everything after it. */
  function Reloc(img: Image, p: Place, off: nat): nat {
    if off < img.romSize then p.rom + off else p.ram + (off - img.romSize)
  }

  /** Its inverse on the two regions. */
  function Unreloc(img: Image, p: Place, a: nat): int {
    if p.rom <= a < p.rom + img.romSize then a - p.rom else a - p.ram + img.romSize
  }

  lemma RelocInSpace(img: Image, p: Place, off: nat)
    requires Fits(img, p) && off < img.Total()
    ensures Reloc(img, p, off) < SPACE
    ensures img.romSize <= off ==> Reloc(img, p, off) == p.ram + (off - img.romSize)
  {
  }

  lemma RelocInverse(img: Image, p: Place, off: nat)
    requires Fits(img, p) && off < img.Total()
    ensures Unreloc(img, p, Reloc(img, p, off)) == off
  {
  }

  /** Relocation loses no distinction between offsets, and shifts a whole piece alike. */
  lemma RelocInjective(img: Image, p: Place, a: nat, b: nat)
    requires Fits(img, p) && a < img.Total() && b < img.Total()
    ensures Reloc(img, p, a) == Reloc(img, p, b) <==> a == b
    ensures (a < img.romSize <==> b < img.romSize) ==> Reloc(img, p, b) - Reloc(img, p, a) == b - a
  {
    RelocInverse(img, p, a);
    RelocInverse(img, p, b);
  }

  // ----- What makes a load fail -----

  predicate GotEntryOk(img: Image, i: nat)
    requires i < |img.got|
  {
    img.got[i] < img.Total()
  }

  /** The verdict on one table entry, by the section its slot and its target lie in. */
  function SlotFault(img: Image, slot: word, target: word): Option<Error> {
    if slot < img.romSize then Some(InRom)
    else if slot < img.DataAt() then Some(InGot)
    else if slot >= img.Total() then Some(OutOfBounds)
    else if img.romSize <= target < img.DataAt() then Some(InGot)
    else if target >= img.Total() then Some(OutOfBounds)
    else None
  }

  function FirstBadGot(img: Image, i: nat): (k: nat)
    requires i <= |img.got|
    ensures i <= k <= |img.got|
    ensures forall j :: i <= j < k ==> GotEntryOk(img, j)
    ensures k < |img.got| ==> !GotEntryOk(img, k)
    decreases |img.got| - i
  {
    if i == |img.got| || !GotEntryOk(img, i) then i else FirstBadGot(img, i + 1)
  }

  predicate SlotOk(img: Image, i: nat)
    requires i < |img.slots| == |img.targets|
  {
    SlotFault(img, img.slots[i], img.targets[i]) == None
  }

  function FirstBadSlot(img: Image, i: nat): (k: nat)
    requires i <= |img.slots| == |img.targets|
    ensures i <= k <= |img.slots|
    ensures forall j :: i <= j < k ==> SlotOk(img, j)
    ensures k < |img.slots| ==> !SlotOk(img, k)
    decreases |img.slots| - i
  {
    if i == |img.slots| || !SlotOk(img, i) then i else FirstBadSlot(img, i + 1)
  }

  /** What is wrong with the image, the GOT looked at first; nothing about places. */
  function Verdict(img: Image): Option<Error>
    requires |img.slots| == |img.targets|
  {
    var g := FirstBadGot(img, 0);
    var s := FirstBadSlot(img, 0);
    if g < |img.got| then Some(OutOfBounds)
    else if s < |img.slots| then SlotFault(img, img.slots[s], img.targets[s])
    else None
  }

  lemma VerdictCases(img: Image)
    requires |img.slots| == |img.targets|
    ensures Verdict(img) == None <==>
      (forall i :: 0 <= i < |img.got| ==> GotEntryOk(img, i)) && forall i :: 0 <= i < |img.slots| ==> SlotOk(img, i)
    ensures !(forall i :: 0 <= i < |img.got| ==> GotEntryOk(img, i)) ==> Verdict(img) == Some(OutOfBounds)
    ensures forall i ::
      && 0 <= i < |img.slots|
      && (forall j :: 0 <= j < |img.got| ==> GotEntryOk(img, j))
      && !SlotOk(img, i)
      && (forall j :: 0 <= j < i ==> SlotOk(img, j))
      ==> Verdict(img) == SlotFault(img, img.slots[i], img.targets[i]) != None
    ensures Verdict(img) !in {Some(InvalidVersion), Some(NotEnoughRam)}
  {
  }

  /** The image loads exactly when every GOT entry points into it and every table entry
      designates a pointer in .rom.ram or .ram whose value points into it but not at the
      GOT. Otherwise a bad GOT entry wins over any bad slot, and the earliest slot wins. */
  lemma VerdictExact(img: Image)
    requires |img.slots| == |img.targets|
    ensures Verdict(img) == None <==>
      && (forall i :: 0 <= i < |img.got| ==> img.got[i] < img.Total())
      && (forall i :: 0 <= i < |img.slots| ==>
           && img.DataAt() <= img.slots[i] < img.Total()
           && img.targets[i] < img.Total()
           && !(img.romSize <= img.targets[i] < img.DataAt()))
    ensures (exists i :: 0 <= i < |img.got| && img.got[i] >= img.Total()) ==> Verdict(img) == Some(OutOfBounds)
    ensures forall i ::
      && 0 <= i < |img.slots|
      && (forall j :: 0 <= j < |img.got| ==> GotEntryOk(img, j))
      && !SlotOk(img, i)
      && (forall j :: 0 <= j < i ==> SlotOk(img, j))
      ==> Verdict(img) == SlotFault(img, img.slots[i], img.targets[i])
  {
    var g, s := FirstBadGot(img, 0), FirstBadSlot(img, 0);
    if i :| 0 <= i < |img.got| && img.got[i] >= img.Total() {
      assert !GotEntryOk(img, i);
    }
    if Verdict(img) == None {
      forall i | 0 <= i < |img.got| ensures img.got[i] < img.Total() {
        assert GotEntryOk(img, i);
      }
      forall i | 0 <= i < |img.slots|
        ensures SlotFault(img, img.slots[i], img.targets[i]) == None
      {
        assert SlotOk(img, i);
      }
    }
  }

  // ----- The memory after each phase -----

  /** .rom.ram copied behind the place of the GOT, .ram zeroed behind it. */
  function Prepared(img: Image, p: Place, m: Memory): Memory
    requires Fits(img, p)
  {
    Splice(Splice(m, p.ram + img.GotSize(), img.data), p.ram + img.GotSize() + |img.data|, Zeros(Up4(img.bssSize)))
  }

  /** The first k GOT entries relocated. */
  function WithGot(img: Image, p: Place, m: Memory, k: nat): Memory
    requires Fits(img, p) && k <= |img.got|
    requires forall j :: 0 <= j < k ==> GotEntryOk(img, j)
  {
    if k == 0 then m
    else
      assert GotEntryOk(img, k - 1);
      WithWord(WithGot(img, p, m, k - 1), p.ram + 4 * (k - 1), Reloc(img, p, img.got[k - 1]))
  }

  lemma WithGotStep(img: Image, p: Place, m: Memory, k: nat)
    requires Fits(img, p) && k < |img.got| && (forall j :: 0 <= j <= k ==> GotEntryOk(img, j))
    ensures GotEntryOk(img, k)
    ensures WithGot(img, p, m, k + 1) == WithWord(WithGot(img, p, m, k), p.ram + 4 * k, Reloc(img, p, img.got[k]))
  {
  }

  /** The first k pointers patched. */
  function WithPatches(img: Image, p: Place, m: Memory, k: nat): Memory
    requires Fits(img, p) && k <= |img.slots| == |img.targets|
    requires forall j :: 0 <= j < k ==> SlotOk(img, j)
  {
    if k == 0 then m
    else
      assert SlotOk(img, k - 1);
      WithWord(WithPatches(img, p, m, k - 1), Reloc(img, p, img.slots[k - 1]), Reloc(img, p, img.targets[k - 1]))
  }

  lemma WithPatchesStep(img: Image, p: Place, m: Memory, k: nat)
    requires Fits(img, p) && k < |img.slots| == |img.targets| && (forall j :: 0 <= j <= k ==> SlotOk(img, j))
    ensures SlotOk(img, k)
    ensures WithPatches(img, p, m, k + 1)
         == WithWord(WithPatches(img, p, m, k), Reloc(img, p, img.slots[k]), Reloc(img, p, img.targets[k]))
  {
    assert SlotOk(img, k);
  }

  /** Memory at the end of the run, whether it reached the entry point or died half-way. */
  function Loaded(img: Image, p: Place, m: Memory): Memory
    requires Fits(img, p) && |img.slots| == |img.targets|
  {
    var g := WithGot(img, p, Prepared(img, p, m), FirstBadGot(img, 0));
    if FirstBadGot(img, 0) < |img.got| then g else WithPatches(img, p, g, FirstBadSlot(img, 0))
  }

  lemma LoadedCases(img: Image, p: Place, m: Memory)
    requires Fits(img, p) && |img.slots| == |img.targets|
    ensures var g, k := FirstBadGot(img, 0), FirstBadSlot(img, 0);
      var b := WithGot(img, p, Prepared(img, p, m), g);
      if g < |img.got| then Verdict(img) == Some(OutOfBounds) && Loaded(img, p, m) == b
      else && Verdict(img) == (if k < |img.slots| then SlotFault(img, img.slots[k], img.targets[k]) else None)
           && Loaded(img, p, m) == WithPatches(img, p, b, k)
  {
  }

  // ----- Frames -----

  lemma PreparedFrame(img: Image, p: Place, m: Memory)
    requires Fits(img, p)
    ensures SameOutside(m, Prepared(img, p, m), p.ram, p.ram + img.RamSpan())
  {
  }

  lemma {:induction false} WithGotWords(img: Image, p: Place, m: Memory, k: nat)
    requires Fits(img, p) && k <= |img.got|
    requires forall j :: 0 <= j < k ==> GotEntryOk(img, j)
    ensures SameOutside(m, WithGot(img, p, m, k), p.ram, p.ram + 4 * k)
  {
    hide WithWord;
    if k == 0 {
    } else {
      WithGotWords(img, p, m, k - 1);
      assert GotEntryOk(img, k - 1);
      WithWordSame(WithGot(img, p, m, k - 1), p.ram + 4 * (k - 1), Reloc(img, p, img.got[k - 1]),
                   p.ram, p.ram + 4 * k);
    }
  }

  /** The GOT pass writes the words of the entries it gets through. */
  lemma WithGotFrame(img: Image, p: Place, m: Memory, k: nat)
    requires Fits(img, p) && k <= |img.got|
    requires forall j :: 0 <= j < k ==> GotEntryOk(img, j)
    ensures SameOutside(m, WithGot(img, p, m, k), p.ram, p.ram + 4 * k)
    ensures SameOutside(m, WithGot(img, p, m, k), p.ram, p.ram + img.GotSize())
  {
    hide WithGot;
    WithGotWords(img, p, m, k);
  }

  lemma {:induction false} WithPatchesFrame(img: Image, p: Place, m: Memory, k: nat)
    requires img.Valid() && Fits(img, p) && k <= |img.slots|
    requires forall j :: 0 <= j < k ==> SlotOk(img, j)
    ensures SameOutside(m, WithPatches(img, p, m, k), p.ram + img.GotSize(), p.ram + img.RamSize())
  {
    if k == 0 {
    } else {
      WithPatchesFrame(img, p, m, k - 1);
      assert SlotOk(img, k - 1);
      WithWordSame(WithPatches(img, p, m, k - 1), Reloc(img, p, img.slots[k - 1]),
                   Reloc(img, p, img.targets[k - 1]), p.ram + img.GotSize(), p.ram + img.RamSize());
    }
  }

  /** Whatever the outcome, only the RAM handed to the image changes. */
  lemma LoadedFrame(img: Image, p: Place, m: Memory)
    requires img.Valid() && Fits(img, p)
    ensures SameOutside(m, Loaded(img, p, m), p.ram, p.ram + img.RamSpan())
  {
    var b := Prepared(img, p, m);
    var k := FirstBadGot(img, 0);
    WithGotFrame(img, p, b, k);
    if k == |img.got| {
      WithPatchesFrame(img, p, WithGot(img, p, b, k), FirstBadSlot(img, 0));
    }
  }

  /** The bytes behind .ram in its last word are cleared, whatever the outcome. */
  lemma ClearedBehind(img: Image, p: Place, m: Memory, x: word)
    requires img.Valid() && Fits(img, p) && p.ram + img.RamSize() <= x < p.ram + img.RamSpan()
    ensures Loaded(img, p, m)[x] == 0
  {
    hide WithGot, WithPatches;
    var b, k := Prepared(img, p, m), FirstBadGot(img, 0);
    assert b[x] == 0;
    WithGotFrame(img, p, b, k);
    if k == |img.got| {
      WithPatchesFrame(img, p, WithGot(img, p, b, k), FirstBadSlot(img, 0));
    }
  }

  // ----- Contents -----

  lemma {:induction false} WithGotEntry(img: Image, p: Place, m: Memory, k: nat, i: nat)
    requires Fits(img, p) && i < k <= |img.got|
    requires forall j :: 0 <= j < k ==> GotEntryOk(img, j)
    ensures GotEntryOk(img, i)
    ensures WordAt(WithGot(img, p, m, k), p.ram + 4 * i) == Reloc(img, p, img.got[i])
    decreases k
  {
    hide WithWord, WordAt;
    var b := WithGot(img, p, m, k - 1);
    assert GotEntryOk(img, k - 1);
    var at, w := p.ram + 4 * (k - 1), Reloc(img, p, img.got[k - 1]);
    if i == k - 1 {
      ReadBack(b, at, w);
    } else {
      WithGotEntry(img, p, m, k - 1, i);
      ReadOther(b, at, w, p.ram + 4 * i);
    }
  }

  /** Two entries do not interfere: they patch disjoint words, or the same one alike. */
  ghost predicate Compatible(img: Image, i: nat, j: nat)
    requires i < |img.slots| == |img.targets| && j < |img.slots|
  {
    || Apart(img.slots[i], 4, img.slots[j], 4)
    || (img.slots[i] == img.slots[j] && img.targets[i] == img.targets[j])
  }

  ghost predicate Separate(img: Image)
    requires |img.slots| == |img.targets|
  {
    forall i, j :: 0 <= i < |img.slots| && 0 <= j < |img.slots| ==> Compatible(img, i, j)
  }

  ghost predicate Covers(img: Image, i: nat, o: int)
    requires i < |img.slots|
  {
    img.slots[i] <= o < img.slots[i] as int + 4
  }

  /** The byte entry i puts at offset o. */
  function PatchByte(img: Image, p: Place, i: nat, o: nat): byte
    requires Fits(img, p) && i < |img.slots| == |img.targets| && SlotOk(img, i) && Covers(img, i, o)
  {
    ByteOf(Reloc(img, p, img.targets[i]), o - img.slots[i])
  }

  /** Good entries put the same byte wherever they overlap. */
  ghost predicate Consistent(img: Image, p: Place)
    requires Fits(img, p) && |img.slots| == |img.targets|
  {
    forall i, j, o: nat ::
      && 0 <= i < |img.slots| && 0 <= j < |img.slots| && SlotOk(img, i) && SlotOk(img, j)
      && Covers(img, i, o) && Covers(img, j, o)
      ==> PatchByte(img, p, i, o) == PatchByte(img, p, j, o)
  }

  lemma SeparateConsistent(img: Image, p: Place)
    requires Fits(img, p) && |img.slots| == |img.targets| && Separate(img)
    ensures Consistent(img, p)
  {
    forall i, j, o: nat |
      && 0 <= i < |img.slots| && 0 <= j < |img.slots| && SlotOk(img, i) && SlotOk(img, j)
      && Covers(img, i, o) && Covers(img, j, o)
      ensures PatchByte(img, p, i, o) == PatchByte(img, p, j, o)
    {
      assert Compatible(img, i, j);
    }
  }

  /** What the k-th patch does to the byte at offset o. */
  lemma PatchStepByte(img: Image, p: Place, m: Memory, k: nat, o: nat)
    requires img.Valid() && Fits(img, p) && 0 < k <= |img.slots| && (forall j :: 0 <= j < k ==> SlotOk(img, j))
    requires img.romSize <= o < img.Total()
    ensures SlotOk(img, k - 1) && Reloc(img, p, o) < SPACE
    ensures WithPatches(img, p, m, k)[Reloc(img, p, o)]
         == if Covers(img, k - 1, o) then PatchByte(img, p, k - 1, o)
            else WithPatches(img, p, m, k - 1)[Reloc(img, p, o)]
  {
    hide WithWord, ByteOf;
    assert SlotOk(img, k - 1);
    WithWordBytes(WithPatches(img, p, m, k - 1), Reloc(img, p, img.slots[k - 1]),
                  Reloc(img, p, img.targets[k - 1]), Reloc(img, p, o));
  }

  /** The bytes of a good slot lie in the image's RAM. */
  lemma CoveredInRam(img: Image, i: nat, o: nat)
    requires img.Valid() && i < |img.slots| && SlotOk(img, i) && Covers(img, i, o)
    ensures img.DataAt() <= o < img.Total()
  {
  }

  lemma {:induction false} PatchedByte(img: Image, p: Place, m: Memory, k: nat, i: nat, o: nat)
    requires img.Valid() && Fits(img, p) && Consistent(img, p) && i < k <= |img.slots| && Covers(img, i, o)
    requires forall j :: 0 <= j < k ==> SlotOk(img, j)
    ensures SlotOk(img, i) && img.DataAt() <= o < img.Total()
    ensures WithPatches(img, p, m, k)[Reloc(img, p, o)] == PatchByte(img, p, i, o)
    decreases k
  {
    hide WithPatches, PatchByte, Consistent, SlotOk;
    assert SlotOk(img, k - 1) && SlotOk(img, i);
    CoveredInRam(img, i, o);
    PatchStepByte(img, p, m, k, o);
    if Covers(img, k - 1, o) {
      ConsistentAt(img, p, i, k - 1, o);
    } else {
      PatchedByte(img, p, m, k - 1, i, o);
    }
  }

  lemma ConsistentAt(img: Image, p: Place, i: nat, j: nat, o: nat)
    requires Fits(img, p) && |img.slots| == |img.targets| && Consistent(img, p)
    requires i < |img.slots| && j < |img.slots| && SlotOk(img, i) && SlotOk(img, j)
    requires Covers(img, i, o) && Covers(img, j, o)
    ensures PatchByte(img, p, i, o) == PatchByte(img, p, j, o)
  {
  }

  /** Of the entries that cover a byte the last one decides, consistent or not. */
  lemma {:induction false} LastCovers(img: Image, p: Place, m: Memory, k: nat, i: nat, o: nat)
    requires img.Valid() && Fits(img, p) && i < k <= |img.slots| && Covers(img, i, o)
    requires forall j :: 0 <= j < k ==> SlotOk(img, j)
    requires forall j :: i < j < k ==> !Covers(img, j, o)
    ensures SlotOk(img, i) && img.DataAt() <= o < img.Total()
    ensures WithPatches(img, p, m, k)[Reloc(img, p, o)] == PatchByte(img, p, i, o)
    decreases k
  {
    hide WithPatches, PatchByte, SlotOk;
    assert SlotOk(img, i);
    CoveredInRam(img, i, o);
    PatchStepByte(img, p, m, k, o);
    if i == k - 1 {
    } else {
      LastCovers(img, p, m, k - 1, i, o);
    }
  }

  ghost predicate Covered(img: Image, o: nat) {
    exists i :: 0 <= i < |img.slots| && Covers(img, i, o)
  }

  lemma {:induction false} UnpatchedByte(img: Image, p: Place, m: Memory, k: nat, o: nat)
    requires img.Valid() && Fits(img, p) && k <= |img.slots|
    requires forall j :: 0 <= j < k ==> SlotOk(img, j)
    requires img.romSize <= o < img.Total()
    requires forall i :: 0 <= i < k ==> !Covers(img, i, o)
    ensures WithPatches(img, p, m, k)[Reloc(img, p, o)] == m[Reloc(img, p, o)]
    decreases k
  {
    hide WithWord, PatchByte;
    if k == 0 {
    } else {
      UnpatchedByte(img, p, m, k - 1, o);
      PatchStepByte(img, p, m, k, o);
    }
  }

  /** Memory after the GOT pass of a load that gets through it. */
  function GotDone(img: Image, p: Place, m: Memory): Memory
    requires Fits(img, p) && forall j :: 0 <= j < |img.got| ==> GotEntryOk(img, j)
  {
    WithGot(img, p, Prepared(img, p, m), |img.got|)
  }

  lemma LoadedWhenFine(img: Image, p: Place, m: Memory)
    requires img.Valid() && Fits(img, p) && Verdict(img) == None
    ensures forall j :: 0 <= j < |img.got| ==> GotEntryOk(img, j)
    ensures forall j :: 0 <= j < |img.slots| ==> SlotOk(img, j)
    ensures Loaded(img, p, m) == WithPatches(img, p, GotDone(img, p, m), |img.slots|)
  {
    hide WithPatches, WithGot, Prepared;
  }

  lemma LoadedGot(img: Image, p: Place, m: Memory, i: nat)
    requires img.Valid() && Fits(img, p) && Verdict(img) == None && i < |img.got|
    ensures WordAt(Loaded(img, p, m), p.ram + 4 * i) == Reloc(img, p, img.got[i])
  {
    hide Prepared, WithGot, WithPatches, WordAt, Loaded, Verdict, SlotOk;
    LoadedWhenFine(img, p, m);
    var g := GotDone(img, p, m);
    WithGotEntry(img, p, Prepared(img, p, m), |img.got|, i);
    WithPatchesFrame(img, p, g, |img.slots|);
    WordAtSame(g, Loaded(img, p, m), p.ram + img.GotSize(), p.ram + img.RamSize(), p.ram + 4 * i);
  }

  /** Slot i holds its relocated value. */
  ghost predicate Arrived(img: Image, p: Place, f: Memory, i: nat)
    requires img.Valid() && Fits(img, p) && i < |img.slots| && SlotOk(img, i)
  {
    WordAt(f, Reloc(img, p, img.slots[i])) == Reloc(img, p, img.targets[i])
  }

  lemma ArrivedBytes(img: Image, p: Place, f: Memory, i: nat)
    requires img.Valid() && Fits(img, p) && i < |img.slots| && SlotOk(img, i)
    ensures Arrived(img, p, f, i) <==>
      forall o: nat :: Covers(img, i, o) ==> Reloc(img, p, o) < SPACE && f[Reloc(img, p, o)] == PatchByte(img, p, i, o)
  {
    hide WordAt, ByteOf;
    var slot, at, w := img.slots[i], Reloc(img, p, img.slots[i]), Reloc(img, p, img.targets[i]);
    WordFromBytes(f, at, w);
    if Arrived(img, p, f, i) {
      forall o: nat | Covers(img, i, o)
        ensures Reloc(img, p, o) < SPACE && f[Reloc(img, p, o)] == PatchByte(img, p, i, o)
      {
        var d: nat := o - slot;
        assert f[at + d] == ByteOf(w, d);
      }
    }
    if forall o: nat :: Covers(img, i, o) ==>
         Reloc(img, p, o) < SPACE && f[Reloc(img, p, o)] == PatchByte(img, p, i, o)
    {
      forall d: nat | d < 4
        ensures f[at + d] == ByteOf(w, d)
      {
        var o := slot + d;
        assert Covers(img, i, o) && Reloc(img, p, o) == at + d;
      }
    }
  }

  lemma PatchedWord(img: Image, p: Place, m: Memory, i: nat)
    requires img.Valid() && Fits(img, p) && Consistent(img, p) && i < |img.slots|
    requires forall j :: 0 <= j < |img.slots| ==> SlotOk(img, j)
    ensures Arrived(img, p, WithPatches(img, p, m, |img.slots|), i)
  {
    hide WithPatches, Consistent, PatchByte, Arrived;
    var f := WithPatches(img, p, m, |img.slots|);
    ArrivedBytes(img, p, f, i);
    forall o: nat | Covers(img, i, o)
      ensures Reloc(img, p, o) < SPACE && f[Reloc(img, p, o)] == PatchByte(img, p, i, o)
    {
      PatchedByte(img, p, m, |img.slots|, i, o);
    }
  }

  lemma PreparedByte(img: Image, p: Place, m: Memory, o: nat)
    requires Fits(img, p) && img.DataAt() <= o < img.Total()
    ensures Prepared(img, p, m)[Reloc(img, p, o)] == if o < img.BssAt() then img.data[o - img.DataAt()] else 0
  {
  }

  lemma LoadedOther(img: Image, p: Place, m: Memory, o: nat)
    requires img.Valid() && Fits(img, p) && Verdict(img) == None
    requires img.DataAt() <= o < img.Total() && !Covered(img, o)
    ensures Loaded(img, p, m)[Reloc(img, p, o)] == if o < img.BssAt() then img.data[o - img.DataAt()] else 0
  {
    hide Prepared, WithGot, WithPatches, Loaded, Verdict, SlotOk;
    LoadedWhenFine(img, p, m);
    UnpatchedByte(img, p, GotDone(img, p, m), |img.slots|, o);
    WithGotFrame(img, p, Prepared(img, p, m), |img.got|);
    PreparedByte(img, p, m, o);
  }

  lemma LoadedSlot(img: Image, p: Place, m: Memory, i: nat)
    requires img.Valid() && Fits(img, p) && Consistent(img, p) && Verdict(img) == None && i < |img.slots|
    ensures SlotOk(img, i) && WordAt(Loaded(img, p, m), Reloc(img, p, img.slots[i])) == Reloc(img, p, img.targets[i])
  {
    hide WithPatches, WordAt, GotDone, Loaded, Verdict, Consistent;
    LoadedWhenFine(img, p, m);
    PatchedWord(img, p, GotDone(img, p, m), i);
  }

  /** A successful load puts a relocated word in every GOT entry and every slot, the
      original byte everywhere else in .rom.ram, and zero everywhere else in .ram. */
  lemma LoadedContents(img: Image, p: Place, m: Memory)
    requires img.Valid() && Fits(img, p) && Consistent(img, p) && Verdict(img) == None
    ensures forall i :: 0 <= i < |img.got| ==>
      WordAt(Loaded(img, p, m), p.ram + 4 * i) == Reloc(img, p, img.got[i])
    ensures forall i :: 0 <= i < |img.slots| ==>
      SlotOk(img, i) && WordAt(Loaded(img, p, m), Reloc(img, p, img.slots[i])) == Reloc(img, p, img.targets[i])
    ensures forall o :: img.DataAt() <= o < img.Total() && !Covered(img, o) ==>
      Loaded(img, p, m)[Reloc(img, p, o)] == if o < img.BssAt() then img.data[o - img.DataAt()] else 0
  {
    hide WordAt, Loaded, Verdict, Covered, Consistent;
    forall i | 0 <= i < |img.got|
      ensures WordAt(Loaded(img, p, m), p.ram + 4 * i) == Reloc(img, p, img.got[i])
    {
      LoadedGot(img, p, m, i);
    }
    forall i | 0 <= i < |img.slots|
      ensures SlotOk(img, i) && WordAt(Loaded(img, p, m), Reloc(img, p, img.slots[i])) == Reloc(img, p, img.targets[i])
    {
      LoadedSlot(img, p, m, i);
    }
    forall o | img.DataAt() <= o < img.Total() && !Covered(img, o)
      ensures Loaded(img, p, m)[Reloc(img, p, o)] == if o < img.BssAt() then img.data[o - img.DataAt()] else 0
    {
      LoadedOther(img, p, m, o);
    }
  }

  /** Consistency is what a load needs to put every pointer right, and no more than that. */
  lemma SlotsArriveExact(img: Image, p: Place, m: Memory)
    requires img.Valid() && Fits(img, p) && Verdict(img) == None
    ensures forall i :: 0 <= i < |img.slots| ==> SlotOk(img, i)
    ensures Consistent(img, p) <==> forall i :: 0 <= i < |img.slots| ==> Arrived(img, p, Loaded(img, p, m), i)
  {
    hide WithPatches, GotDone, Loaded, Verdict, Consistent, PatchByte, Arrived;
    LoadedWhenFine(img, p, m);
    var f := Loaded(img, p, m);
    if Consistent(img, p) {
      forall i | 0 <= i < |img.slots|
        ensures Arrived(img, p, f, i)
      {
        PatchedWord(img, p, GotDone(img, p, m), i);
      }
    }
    if forall i :: 0 <= i < |img.slots| ==> Arrived(img, p, f, i) {
      forall i | 0 <= i < |img.slots|
        ensures SlotOk(img, i) && forall o: nat :: Covers(img, i, o) ==>
          Reloc(img, p, o) < SPACE && f[Reloc(img, p, o)] == PatchByte(img, p, i, o)
      {
        ArrivedBytes(img, p, f, i);
      }
      AllAlike(img, p, f);
    }
  }

  /** If one memory holds what every entry puts, the entries agree. */
  lemma AllAlike(img: Image, p: Place, f: Memory)
    requires Fits(img, p) && |img.slots| == |img.targets|
    requires forall i, o: nat :: 0 <= i < |img.slots| && SlotOk(img, i) && Covers(img, i, o) ==>
      Reloc(img, p, o) < SPACE && f[Reloc(img, p, o)] == PatchByte(img, p, i, o)
    ensures Consistent(img, p)
  {
    hide PatchByte, SlotOk, Fits, Reloc;
  }

  lemma PreparedAlike(img: Image, p: Place, m: Memory, m': Memory, x: word)
    requires Fits(img, p)
    ensures p.ram + img.GotSize() <= x < p.ram + img.RamSpan() ==> Prepared(img, p, m)[x] == Prepared(img, p, m')[x]
    ensures !(p.ram + img.GotSize() <= x < p.ram + img.RamSpan()) ==> Prepared(img, p, m)[x] == m[x]
    ensures !(p.ram + img.GotSize() <= x < p.ram + img.RamSpan()) ==> Prepared(img, p, m')[x] == m'[x]
  {
  }

  lemma {:induction false} WithGotAlike(img: Image, p: Place, m: Memory, m': Memory, k: nat, x: word)
    requires Fits(img, p) && k <= |img.got| && (forall j :: 0 <= j < k ==> GotEntryOk(img, j))
    requires m[x] == m'[x] || p.ram <= x < p.ram + 4 * k
    ensures WithGot(img, p, m, k)[x] == WithGot(img, p, m', k)[x]
    decreases k
  {
    hide WithWord, ByteOf;
    if k == 0 {
    } else {
      assert GotEntryOk(img, k - 1);
      var at, w := p.ram + 4 * (k - 1), Reloc(img, p, img.got[k - 1]);
      WithWordBytes(WithGot(img, p, m, k - 1), at, w, x);
      WithWordBytes(WithGot(img, p, m', k - 1), at, w, x);
      if at <= x < at + 4 {
      } else {
        WithGotAlike(img, p, m, m', k - 1, x);
      }
    }
  }

  lemma {:induction false} WithPatchesAlike(img: Image, p: Place, m: Memory, m': Memory, k: nat, x: word)
    requires img.Valid() && Fits(img, p) && k <= |img.slots| && (forall j :: 0 <= j < k ==> SlotOk(img, j))
    requires m[x] == m'[x]
    ensures WithPatches(img, p, m, k)[x] == WithPatches(img, p, m', k)[x]
    decreases k
  {
    hide WithWord, ByteOf;
    if k == 0 {
    } else {
      assert SlotOk(img, k - 1);
      var at, w := Reloc(img, p, img.slots[k - 1]), Reloc(img, p, img.targets[k - 1]);
      WithWordBytes(WithPatches(img, p, m, k - 1), at, w, x);
      WithWordBytes(WithPatches(img, p, m', k - 1), at, w, x);
      WithPatchesAlike(img, p, m, m', k - 1, x);
    }
  }

  /** What a successful load leaves in RAM is made from image and place alone, whatever was there. */
  lemma LoadedDetermined(img: Image, p: Place, m: Memory, m': Memory, x: word)
    requires img.Valid() && Fits(img, p) && Verdict(img) == None && p.ram <= x < p.ram + img.RamSpan()
    ensures Loaded(img, p, m)[x] == Loaded(img, p, m')[x]
  {
    hide WithGot, WithPatches, Prepared, Loaded, Verdict;
    LoadedWhenFine(img, p, m);
    LoadedWhenFine(img, p, m');
    PreparedAlike(img, p, m, m', x);
    WithGotAlike(img, p, Prepared(img, p, m), Prepared(img, p, m'), |img.got|, x);
    WithPatchesAlike(img, p, GotDone(img, p, m), GotDone(img, p, m'), |img.slots|, x);
  }

  // ----- Memory after any run, good or bad -----

  /** How many GOT entries and table entries a run gets through. */
  ghost predicate Progress(img: Image, g: nat, k: nat)
    requires |img.slots| == |img.targets|
  {
    g == FirstBadGot(img, 0) && k == if g == |img.got| then FirstBadSlot(img, 0) else 0
  }

  /** The GOT entries gone through are relocated; the others are not written. */
  lemma GotAfter(img: Image, p: Place, m: Memory, g: nat, k: nat)
    requires img.Valid() && Fits(img, p) && Progress(img, g, k)
    ensures g <= |img.got| && forall i :: 0 <= i < g ==> GotEntryOk(img, i)
    ensures forall i :: 0 <= i < g ==> WordAt(Loaded(img, p, m), p.ram + 4 * i) == Reloc(img, p, img.got[i])
    ensures forall x: word :: p.ram + 4 * g <= x < p.ram + img.GotSize() ==> Loaded(img, p, m)[x] == m[x]
  {
    hide Prepared, WithGot, WithPatches, WordAt, SlotOk;
    var b := Prepared(img, p, m);
    var f := WithGot(img, p, b, g);
    WithGotFrame(img, p, b, g);
    if g == |img.got| {
      WithPatchesFrame(img, p, f, k);
    }
    forall x: word | p.ram + 4 * g <= x < p.ram + img.GotSize()
      ensures Loaded(img, p, m)[x] == m[x]
    {
      PreparedAlike(img, p, m, m, x);
    }
    forall i | 0 <= i < g
      ensures WordAt(Loaded(img, p, m), p.ram + 4 * i) == Reloc(img, p, img.got[i])
    {
      WithGotEntry(img, p, b, g, i);
      WordAtSame(f, Loaded(img, p, m), p.ram + img.GotSize(), p.ram + img.RamSize(), p.ram + 4 * i);
    }
  }

  /** Behind the GOT a byte is what the last of the entries gone through that covers it puts there,
      and otherwise the image's initial byte, or zero. */
  lemma BytesAfter(img: Image, p: Place, m: Memory, g: nat, k: nat, o: nat)
    requires img.Valid() && Fits(img, p) && Progress(img, g, k) && img.DataAt() <= o < img.Total()
    ensures k <= |img.slots| && forall i :: 0 <= i < k ==> SlotOk(img, i)
    ensures forall i :: 0 <= i < k && Covers(img, i, o) && (forall j :: i < j < k ==> !Covers(img, j, o)) ==>
      Loaded(img, p, m)[Reloc(img, p, o)] == PatchByte(img, p, i, o)
    ensures (forall i :: 0 <= i < k ==> !Covers(img, i, o)) ==>
      Loaded(img, p, m)[Reloc(img, p, o)] == if o < img.BssAt() then img.data[o - img.DataAt()] else 0
  {
    hide Prepared, WithGot, WithPatches, PatchByte, Covers;
    var b := Prepared(img, p, m);
    var f := WithGot(img, p, b, g);
    WithGotFrame(img, p, b, g);
    PreparedByte(img, p, m, o);
    assert Loaded(img, p, m) == WithPatches(img, p, f, k) by {
      PatchNone(img, p, f);
    }
    forall i | 0 <= i < k && Covers(img, i, o) && (forall j :: i < j < k ==> !Covers(img, j, o))
      ensures Loaded(img, p, m)[Reloc(img, p, o)] == PatchByte(img, p, i, o)
    {
      LastCovers(img, p, f, k, i, o);
    }
    if forall i :: 0 <= i < k ==> !Covers(img, i, o) {
      UnpatchedByte(img, p, f, k, o);
    }
  }

  lemma PatchNone(img: Image, p: Place, m: Memory)
    requires img.Valid() && Fits(img, p)
    ensures WithPatches(img, p, m, 0) == m
  {
  }
}
