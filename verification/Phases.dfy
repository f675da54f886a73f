/** The loader's loops seen from outside: where they find the image, what each turn does to
    memory, and that what is still to be read stays as it is. */
module Phases {
  import opened Words
  import opened Memories
  import opened Images
  import opened Crt0

  /** The local variables of `_start` hold the places of the image's sections. */
  ghost predicate Places(s: Sections, img: Image, p: Place) {
    && s.rom == p.rom && s.romSize == img.romSize
    && s.got == p.rom + img.romSize && s.gotSize == img.GotSize()
    && s.data == p.rom + img.DataAt() && s.dataSize == |img.data|
    && s.relGot == p.ram && s.relData == p.ram + img.GotSize()
    && s.relBss == p.ram + img.GotSize() + |img.data| && s.bssSize == img.bssSize
  }

  // ----- Addresses stored to -----

  predicate Between(lo: int, x: int, hi: int) {
    lo <= x < hi
  }

  /** The addresses from lo up to but not including hi. */
  ghost function Range(lo: int, hi: int): iset<int> {
    iset x | Between(lo, x, hi)
  }

  /** Between w and w' nothing outside [lo, hi) was added. */
  ghost predicate WritesIn(w: iset<int>, w': iset<int>, lo: int, hi: int) {
    w <= w' <= w + Range(lo, hi)
  }

  lemma RangeExtend(w: iset<int>, lo: int, mid: int, hi: int)
    requires lo <= mid <= hi
    ensures w + Range(lo, mid) + Range(mid, hi) == w + Range(lo, hi)
    ensures w + Range(mid, hi) + Range(lo, mid) == w + Range(lo, hi)
  {
    assert Range(lo, mid) + Range(mid, hi) == Range(lo, hi);
  }

  lemma RangeEmpty(w: iset<int>, lo: int)
    ensures w + Range(lo, lo) == w
  {
  }

  lemma WritesNone(w: iset<int>, lo: int, hi: int)
    ensures WritesIn(w, w, lo, hi)
  {
  }

  lemma WritesRange(w: iset<int>, lo: int, hi: int, lo': int, hi': int)
    requires lo <= lo' && hi' <= hi
    ensures WritesIn(w, w + Range(lo', hi'), lo, hi)
  {
  }

  lemma WritesMore(w: iset<int>, w': iset<int>, w'': iset<int>, lo: int, hi: int)
    requires WritesIn(w, w', lo, hi) && WritesIn(w', w'', lo, hi)
    ensures WritesIn(w, w'', lo, hi)
  {
  }

  /** Writing where everything has been written already adds nothing. */
  lemma WritesAgain(w: iset<int>, w': iset<int>, lo: int, mid: int, hi: int)
    requires lo <= mid <= hi && WritesIn(w + Range(lo, hi), w', mid, hi)
    ensures w' == w + Range(lo, hi)
  {
  }

  /** Copying and clearing write all of the image's RAM but the GOT, which is written from the
      front as far as its entries are good. */
  lemma RamPieces(w: iset<int>, img: Image, p: Place)
    ensures var k, got, end := FirstBadGot(img, 0), p.ram + img.GotSize(), p.ram + img.RamSpan();
      && WritesIn(w, w + Range(got, end) + Range(p.ram, p.ram + 4 * k), p.ram, end)
      && (k == |img.got| ==> w + Range(got, end) + Range(p.ram, p.ram + 4 * k) == w + Range(p.ram, end))
  {
    var k, got, end := FirstBadGot(img, 0), p.ram + img.GotSize(), p.ram + img.RamSpan();
    hide FirstBadGot;
    assert k == |img.got| ==> Range(got, end) + Range(p.ram, p.ram + 4 * k) == Range(p.ram, end);
  }

  lemma RamPiecesAgain(w: iset<int>, w': iset<int>, img: Image, p: Place)
    requires WritesIn(w + Range(p.ram, p.ram + img.RamSpan()), w', p.ram + img.GotSize(), p.ram + img.RamSpan())
    ensures w' == w + Range(p.ram, p.ram + img.RamSpan())
    ensures WritesIn(w, w', p.ram, p.ram + img.RamSpan())
  {
    WritesAgain(w, w', p.ram, p.ram + img.GotSize(), p.ram + img.RamSpan());
  }

  /** The addresses behind the GOT, those of the words of .ram included, are among w. */
  ghost predicate Clears(s: Sections, ramStart: int, w: iset<int>) {
    Range(ramStart + s.gotSize, ramStart + RamTouched(s)) <= w
  }

  /** No new address is below the RAM claimed or more than two behind it. */
  lemma WritesMean(w: iset<int>, w': iset<int>, s: Sections, ramStart: int)
    ensures WritesIn(w, w', ramStart, ramStart + RamTouched(s)) ==>
      forall x :: x in w' && x !in w ==> ramStart <= x < ramStart + RamNeeded(s) + 3
    ensures w' == w + Range(ramStart, ramStart + RamTouched(s)) ==>
      forall x :: Between(ramStart, x, ramStart + RamNeeded(s)) ==> x in w'
  {
    Up4Below(s.bssSize);
    hide Up4;
  }

  lemma Up4Below(n: nat)
    ensures Up4(n) < n + 4 && Up4(n) <= n + 3
  {
  }

  lemma ClearsIf(s: Sections, ramStart: int, img: Image, p: Place, w: iset<int>)
    requires Range(p.ram + img.GotSize(), p.ram + img.RamSpan()) <= w
    requires p.ram == ramStart && img.GotSize() == s.gotSize && img.RamSpan() == RamTouched(s)
    ensures Clears(s, ramStart, w)
  {
    hide Image.GotSize, Image.RamSpan, RamTouched;
  }

  /** Stores that clear .ram and go no further than its last word stay in the RAM claimed
      exactly when that word ends there. */
  lemma StoresInsideExact(s: Sections, ramStart: int, w: iset<int>)
    requires Clears(s, ramStart, w) && WritesIn(iset{}, w, ramStart, ramStart + RamTouched(s))
    ensures w <= Range(ramStart, ramStart + RamNeeded(s)) <==> s.bssSize % 4 == 0
  {
    Up4Exact(s.bssSize);
    var last := ramStart + RamTouched(s) - 1;
    if s.bssSize % 4 != 0 {
      assert last in Range(ramStart + s.gotSize, ramStart + RamTouched(s));
    }
  }

  // ----- Copying and clearing -----

  /** One more chunk of a copy whose source is not written. */
  lemma CopiedExtend(m: Memory, dest: nat, src: nat, done: nat, k: nat)
    requires dest + done + k <= SPACE && src + done + k <= SPACE && Apart(dest, done + k, src, done + k)
    ensures Copied(Copied(m, dest, src, done), dest + done, src + done, k) == Copied(m, dest, src, done + k)
  {
    var c := Copied(m, dest, src, done);
    assert c[src + done..src + done + k] == m[src + done..src + done + k];
    var l, r := Copied(c, dest + done, src + done, k), Copied(m, dest, src, done + k);
    assert forall x: word :: l[x] == r[x];
  }

  lemma CopiedNone(m: Memory, dest: nat, src: nat)
    requires dest <= SPACE && src <= SPACE
    ensures Copied(m, dest, src, 0) == m
  {
    assert forall x: word :: Copied(m, dest, src, 0)[x] == m[x];
  }

  lemma SpliceNothing(m: Memory, at: word)
    ensures Splice(m, at, Zeros(0)) == m
  {
  }

  lemma ZeroWord()
    ensures forall d: nat :: d < 4 ==> ByteOf(0, d) == 0
  {
  }

  /** One more word of zeros. */
  lemma ZeroExtend(m: Memory, at: nat, n: nat)
    requires at + n + 4 <= SPACE
    ensures WithWord(Splice(m, at, Zeros(n)), at + n, 0) == Splice(m, at, Zeros(n + 4))
  {
    hide WithWord, Splice, Zeros, ByteOf;
    assert forall d: nat :: d < 4 ==> ByteOf(0, d) == 0 by { ZeroWord(); }
    var l, r := WithWord(Splice(m, at, Zeros(n)), at + n, 0), Splice(m, at, Zeros(n + 4));
    forall x: word ensures l[x] == r[x] {
      WithWordBytes(Splice(m, at, Zeros(n)), at + n, 0, x);
    }
  }

  lemma CopiedBytes(m: Memory, dest: nat, src: nat, n: nat)
    requires dest + n <= SPACE && src + n <= SPACE
    ensures forall x: word ::
      Copied(m, dest, src, n)[x] == if dest <= x < dest + n then m[src + (x - dest)] else m[x]
  {
  }

  lemma ClearedBytes(m: Memory, at: nat, size: nat)
    requires at + Up4(size) <= SPACE
    ensures forall x: word ::
      Splice(m, at, Zeros(Up4(size)))[x] == if at <= x < at + (size + 3) / 4 * 4 then 0 else m[x]
  {
    assert Up4(size) == (size + 3) / 4 * 4;
    hide Up4, Splice;
  }

  /** A scan from `from` stops behind k zero bytes. */
  ghost predicate Scanned(m: Memory, from: word, k: nat) {
    m[(from + k) % SPACE] != 0 && forall j: nat :: j < k ==> ByteBehind(m, from, j) == 0
  }

  /** The GOT pass gets through exactly when all entries are offsets into the image. */
  lemma AllGotFine(img: Image)
    ensures FirstBadGot(img, 0) == |img.got| <==> forall i :: 0 <= i < |img.got| ==>
      img.got[i] < img.romSize + 4 * |img.got| + |img.data| + img.bssSize
  {
    var g := FirstBadGot(img, 0);
    hide FirstBadGot;
    if g < |img.got| {
      assert img.got[g] >= img.romSize + 4 * |img.got| + |img.data| + img.bssSize;
    } else {
      forall i | 0 <= i < |img.got|
        ensures img.got[i] < img.romSize + 4 * |img.got| + |img.data| + img.bssSize
      {
        assert GotEntryOk(img, i);
      }
    }
  }

  /** What is reported of the first bad entry, by where its slot and its target lie. */
  lemma FirstSlotFault(img: Image)
    requires |img.slots| == |img.targets|
    ensures var k := FirstBadSlot(img, 0);
      var got, data := img.romSize, img.romSize + 4 * |img.got|;
      var total := data + |img.data| + img.bssSize;
      k < |img.slots| ==>
        var fault := SlotFault(img, img.slots[k], img.targets[k]);
        && (img.slots[k] < got ==> fault == Some(InRom)) && (got <= img.slots[k] < data ==> fault == Some(InGot))
        && (total <= img.slots[k] ==> fault == Some(OutOfBounds))
        && (data <= img.slots[k] < total && got <= img.targets[k] < data ==> fault == Some(InGot))
        && (data <= img.slots[k] < total && total <= img.targets[k] ==> fault == Some(OutOfBounds))
  {
    hide FirstBadSlot;
  }

  lemma FirstBadGotIs(img: Image, k: nat)
    requires k <= |img.got| && (forall j :: 0 <= j < k ==> GotEntryOk(img, j))
    requires k < |img.got| ==> !GotEntryOk(img, k)
    ensures FirstBadGot(img, 0) == k
  {
  }

  lemma FirstBadSlotIs(img: Image, k: nat)
    requires k <= |img.slots| == |img.targets| && (forall j :: 0 <= j < k ==> SlotOk(img, j))
    requires k < |img.slots| ==> !SlotOk(img, k)
    ensures FirstBadSlot(img, 0) == k
  {
  }

  /** The image is laid out as its sections say, its initial data in flash. */
  ghost predicate Relocatable(m: Memory, s: Sections, img: Image, p: Place) {
    && Fits(img, p) && Places(s, img, p)
    && img.data == m[s.data..s.data + s.dataSize]
  }

  lemma PreparedInSteps(s: Sections, img: Image, p: Place, m: Memory)
    requires Relocatable(m, s, img, p)
    ensures Prepared(img, p, m) == Splice(Copied(m, s.relData, s.data, s.dataSize), s.relBss, Zeros(Up4(s.bssSize)))
  {
  }

  lemma AddAligned(a: word, b: word)
    requires a % 4 == 0 && b % 4 == 0
    ensures Add(a, b) % 4 == 0 && Sub(a, b) % 4 == 0
  {
    var i, j := a / 4, b / 4;
    assert a == 4 * i && b == 4 * j;
    hide Add, Sub;
    FourTimes(i + j);
    FourTimes(i + j - SPACE / 4);
    FourTimes(i - j);
    FourTimes(i - j + SPACE / 4);
    AddCases(a, b);
  }

  lemma FourTimes(k: int)
    ensures 4 * k % 4 == 0
  {
  }

  lemma AddCases(a: word, b: word)
    ensures Add(a, b) == a + b || Add(a, b) == a + b - SPACE
    ensures Sub(a, b) == a - b || Sub(a, b) == a - b + SPACE
  {
  }

  /** A word access through one of the two pointers would be misaligned. */
  predicate OffBoundary(dest: nat, src: nat) {
    dest % 4 != 0 || src % 4 != 0
  }

  lemma OffBoundaryStays(dest: nat, src: nat, done: nat)
    requires done % 4 == 0
    ensures OffBoundary(dest + done, src + done) == OffBoundary(dest, src)
  {
    SameAlignment(dest, done);
    SameAlignment(src, done);
  }

  /** `i << 2` added to an address, where neither wraps. */
  lemma WordStep(at: word, i: word)
    requires at + 4 * i < SPACE
    ensures Times4(i) == 4 * i && Add(at, Times4(i)) == at + 4 * i
    ensures at % 4 == 0 ==> (at + 4 * i) % 4 == 0
  {
  }

  lemma SameAlignment(a: nat, d: nat)
    requires d % 4 == 0
    ensures (a + d) % 4 == a % 4
  {
  }

  /** The GOT of the image lies in memory at `at`, a place its RAM does not touch. */
  ghost predicate GotIn(m: Memory, at: nat, img: Image, p: Place) {
    && at + img.GotSize() <= SPACE && Apart(at, img.GotSize(), p.ram, img.RamSpan())
    && forall i :: 0 <= i < |img.got| ==> WordAt(m, at + 4 * i) == img.got[i]
  }

  lemma GotStays(m: Memory, m': Memory, at: nat, img: Image, p: Place)
    requires GotIn(m, at, img, p) && SameOutside(m, m', p.ram, p.ram + img.RamSpan())
    ensures GotIn(m', at, img, p)
  {
    hide WordAt;
    forall i | 0 <= i < |img.got|
      ensures WordAt(m', at + 4 * i) == img.got[i]
    {
      WordAtSame(m, m', p.ram, p.ram + img.RamSpan(), at + 4 * i);
    }
  }

  /** Memory in the GOT loop: k entries were good and are done. */
  ghost predicate Relocating(now: Memory, m: Memory, s: Sections, img: Image, p: Place, k: nat) {
    && Fits(img, p) && Places(s, img, p) && GotIn(m, s.got, img, p)
    && k <= |img.got| && (forall j :: 0 <= j < k ==> GotEntryOk(img, j))
    && now == WithGot(img, p, m, k)
  }

  lemma EntryAddresses(s: Sections, img: Image, p: Place, k: word)
    requires Fits(img, p) && Places(s, img, p) && k < |img.got| && s.got + 4 * k + 4 < SPACE
    ensures Add(s.got, Times4(k)) == s.got + 4 * k && Add(s.relGot, Times4(k)) == p.ram + 4 * k
    ensures p.ram + 4 * k + 4 < SPACE
    ensures s.got % 4 == 0 ==> Add(s.got, Times4(k)) % 4 == 0
    ensures s.relGot % 4 == 0 ==> Add(s.relGot, Times4(k)) % 4 == 0
  {
    WordStep(s.got, k);
    WordStep(s.relGot, k);
    hide Add, Times4;
  }

  lemma RelocatingStart(m: Memory, s: Sections, img: Image, p: Place)
    requires Fits(img, p) && Places(s, img, p) && GotIn(m, s.got, img, p)
    ensures s.gotSize == 4 * |img.got| && Times4(0) == 0 && Relocating(m, m, s, img, p, 0)
  {
  }

  lemma RelocatingEntry(now: Memory, m: Memory, s: Sections, img: Image, p: Place, k: nat)
    requires k < |img.got| && Relocating(now, m, s, img, p, k)
    ensures Fits(img, p) && Places(s, img, p) && s.got + 4 * k + 4 < SPACE && p.ram + 4 * k + 4 < SPACE
    ensures WordAt(now, s.got + 4 * k) == img.got[k]
  {
    hide WithGot, WordAt;
    WithGotFrame(img, p, m, k);
    WordAtSame(m, now, p.ram, p.ram + img.GotSize(), s.got + 4 * k);
  }

  lemma RelocatingStep(now: Memory, m: Memory, s: Sections, img: Image, p: Place, k: nat)
    requires k < |img.got| && Relocating(now, m, s, img, p, k)
    ensures GotEntryOk(img, k) ==>
      && p.ram + 4 * k < SPACE && Reloc(img, p, img.got[k]) < SPACE
      && Relocating(WithWord(now, p.ram + 4 * k, Reloc(img, p, img.got[k])), m, s, img, p, k + 1)
    ensures !GotEntryOk(img, k) ==> FirstBadGot(img, 0) == k && now == WithGot(img, p, m, k)
  {
    hide WithGot, WithWord, GotIn, FirstBadGot;
    if GotEntryOk(img, k) {
      WithGotStep(img, p, m, k);
    } else {
      FirstBadGotIs(img, k);
    }
  }

  lemma RelocatingDone(now: Memory, m: Memory, s: Sections, img: Image, p: Place)
    requires Relocating(now, m, s, img, p, |img.got|)
    ensures FirstBadGot(img, 0) == |img.got| && now == WithGot(img, p, m, FirstBadGot(img, 0))
  {
    hide WithGot, GotIn, FirstBadGot;
    FirstBadGotIs(img, |img.got|);
  }

  /** So do the table, at `meta`, and the pointers it designates. */
  ghost predicate TableIn(m: Memory, meta: nat, img: Image, p: Place)
    requires img.Valid()
  {
    && meta + 8 + 4 * |img.slots| <= SPACE && Apart(meta, 8 + 4 * |img.slots|, p.ram, img.RamSpan())
    && WordAt(m, meta + 4) == |img.slots|
    && forall i :: 0 <= i < |img.slots| ==> EntryIn(m, meta, img, p, i)
  }

  ghost predicate EntryIn(m: Memory, meta: nat, img: Image, p: Place, i: nat)
    requires img.Valid() && i < |img.slots| && meta + 8 + 4 * |img.slots| <= SPACE
  {
    var slot := img.slots[i];
    && WordAt(m, meta + 8 + 4 * i) == slot
    && (img.DataAt() <= slot < img.Total() ==>
         && p.rom + slot + 4 <= SPACE && Apart(p.rom + slot, 4, p.ram, img.RamSpan())
         && WordAt(m, p.rom + slot) == img.targets[i])
  }

  lemma TableStays(m: Memory, m': Memory, meta: nat, img: Image, p: Place)
    requires img.Valid() && TableIn(m, meta, img, p) && SameOutside(m, m', p.ram, p.ram + img.RamSpan())
    ensures TableIn(m', meta, img, p)
  {
    hide WordAt;
    WordAtSame(m, m', p.ram, p.ram + img.RamSpan(), meta + 4);
    forall i | 0 <= i < |img.slots|
      ensures EntryIn(m', meta, img, p, i)
    {
      assert EntryIn(m, meta, img, p, i);
      WordAtSame(m, m', p.ram, p.ram + img.RamSpan(), meta + 8 + 4 * i);
      if img.DataAt() <= img.slots[i] < img.Total() {
        WordAtSame(m, m', p.ram, p.ram + img.RamSpan(), p.rom + img.slots[i]);
      }
    }
  }

  lemma TableParts(m: Memory, meta: word, img: Image, p: Place, i: nat)
    requires img.Valid() && TableIn(m, meta, img, p)
    ensures meta + 8 + 4 * |img.slots| <= SPACE && WordAt(m, meta + 4) == |img.slots|
    ensures i < |img.slots| ==> EntryIn(m, meta, img, p, i)
  {
  }

  /** Memory in the patch loop: k entries were good and are done; the table is still there. */
  ghost predicate Patching(now: Memory, m: Memory, meta: word, s: Sections, img: Image, p: Place, k: nat) {
    && img.Valid() && Fits(img, p) && Places(s, img, p) && TableIn(m, meta, img, p)
    && k <= |img.slots| && (forall j :: 0 <= j < k ==> SlotOk(img, j))
    && now == WithPatches(img, p, m, k)
  }

  lemma PatchingStart(m: Memory, meta: word, s: Sections, img: Image, p: Place)
    requires img.Valid() && Fits(img, p) && Places(s, img, p) && TableIn(m, meta, img, p)
    ensures Patching(m, m, meta, s, img, p, 0)
  {
  }

  lemma PatchingTable(now: Memory, m: Memory, meta: word, s: Sections, img: Image, p: Place, k: nat)
    requires Patching(now, m, meta, s, img, p, k)
    ensures k <= |img.slots| == |img.targets| && img.Valid() && TableIn(now, meta, img, p)
    ensures meta + 4 < SPACE && WordAt(now, Add(meta, 4)) == |img.slots|
  {
    hide WithPatches;
    WithPatchesFrame(img, p, m, k);
    SameOutsideWider(m, now, p.ram + img.GotSize(), p.ram + img.RamSize(), p.ram, p.ram + img.RamSpan());
    TableStays(m, now, meta, img, p);
    TableParts(now, meta, img, p, k);
  }

  lemma CountAligned(meta: word, s: Sections, img: Image)
    ensures PointersAligned(meta, s, img) ==> Add(meta, 4) % 4 == 0
  {
    if PointersAligned(meta, s, img) {
      AddAligned(meta, 4);
    }
  }

  lemma PatchingEntry(now: Memory, m: Memory, meta: word, s: Sections, img: Image, p: Place, k: nat)
    requires k < |img.slots| && Patching(now, m, meta, s, img, p, k)
    ensures img.Valid() && Fits(img, p) && Places(s, img, p)
    ensures meta + 8 + 4 * |img.slots| <= SPACE && EntryIn(now, meta, img, p, k)
  {
    hide EntryIn;
    PatchingTable(now, m, meta, s, img, p, k);
    TableParts(now, meta, img, p, k);
  }

  lemma PatchingStep(now: Memory, m: Memory, meta: word, s: Sections, img: Image, p: Place, k: nat)
    requires k < |img.slots| && Patching(now, m, meta, s, img, p, k)
    ensures |img.slots| == |img.targets|
    ensures SlotOk(img, k) ==>
      && Reloc(img, p, img.slots[k]) < SPACE && Reloc(img, p, img.targets[k]) < SPACE
      && Patching(WithWord(now, Reloc(img, p, img.slots[k]), Reloc(img, p, img.targets[k])), m, meta, s, img, p, k + 1)
    ensures SlotOk(img, k) <==> SlotFault(img, img.slots[k], img.targets[k]) == None
    ensures !SlotOk(img, k) ==> FirstBadSlot(img, 0) == k
  {
    hide WithPatches, WithWord, TableIn, FirstBadSlot;
    if SlotOk(img, k) {
      WithPatchesStep(img, p, m, k);
    } else {
      FirstBadSlotIs(img, k);
    }
  }

  lemma PatchingDone(now: Memory, m: Memory, meta: word, s: Sections, img: Image, p: Place, k: nat)
    requires k == |img.slots| && Patching(now, m, meta, s, img, p, k)
    ensures k == |img.targets| && FirstBadSlot(img, 0) == k
  {
    hide WithPatches, TableIn, FirstBadSlot;
    FirstBadSlotIs(img, k);
  }

  /** Neither copying nor clearing, nor then the GOT pass, disturbs what is still to be read. */
  lemma PreparedReady(m: Memory, meta: word, s: Sections, img: Image, p: Place)
    requires img.Valid() && Fits(img, p) && Places(s, img, p) && GotIn(m, s.got, img, p) && TableIn(m, meta, img, p)
    ensures GotIn(Prepared(img, p, m), s.got, img, p)
    ensures FirstBadGot(img, 0) == |img.got| ==>
      var b := WithGot(img, p, Prepared(img, p, m), |img.got|);
      Patching(b, b, meta, s, img, p, 0)
  {
    var b := Prepared(img, p, m);
    PreparedFrame(img, p, m);
    hide Prepared, WithGot, GotIn, TableIn, FirstBadGot, Patching;
    GotStays(m, b, s.got, img, p);
    TableStays(m, b, meta, img, p);
    if FirstBadGot(img, 0) == |img.got| {
      var g := WithGot(img, p, b, |img.got|);
      WithGotFrame(img, p, b, |img.got|);
      SameOutsideWider(b, g, p.ram, p.ram + img.GotSize(), p.ram, p.ram + img.RamSpan());
      TableStays(b, g, meta, img, p);
      PatchingStart(g, meta, s, img, p);
    }
  }

  lemma PatchingEnds(now: Memory, meta: word, s: Sections, img: Image, p: Place)
    requires |img.slots| == |img.targets|
    ensures forall m :: Patching(now, m, meta, s, img, p, FirstBadSlot(img, 0)) ==>
      Fits(img, p) && now == WithPatches(img, p, m, FirstBadSlot(img, 0))
  {
  }

  /** What ImageOf takes from memory is where the loops look for it. */
  lemma ImageInMemory(m: Memory, e: Env)
    requires MagicOk(m, e) && LayoutSound(m, e)
    ensures var img, p, s := ImageOf(m, e), PlaceOf(m, e), SectionsOf(m, e);
      && img.Valid() && Fits(img, p) && Places(s, img, p)
      && GotIn(m, s.got, img, p) && TableIn(m, MetaAt(e), img, p)
      && Relocatable(m, s, img, p)
  {
    hide WordAt, SectionsOf, LayoutSound, ImageOf, MagicOk, GotIn, TableIn, Fits, RomAt;
    ImageSound(m, e);
    ImageParts(m, e);
    PlacesFound(m, e);
    LayoutFacts(m, e);
    GotFound(m, e);
    TableFound(m, e);
  }

  lemma PlacesFound(m: Memory, e: Env)
    requires MagicOk(m, e) && LayoutSound(m, e)
    ensures Places(SectionsOf(m, e), ImageOf(m, e), PlaceOf(m, e))
  {
    hide WordAt, LayoutSound, ImageOf, MagicOk, RomAt, Footer;
    ImageSizes(m, e);
    ImageParts(m, e);
  }

  lemma GotFound(m: Memory, e: Env)
    requires MagicOk(m, e) && LayoutSound(m, e)
    ensures var img, s := ImageOf(m, e), SectionsOf(m, e);
      && s.got == s.rom + s.romSize && GotIn(m, s.got, img, PlaceOf(m, e))
  {
    hide WordAt, LayoutSound, ImageOf, MagicOk, RomAt, Footer;
    ImageSizes(m, e);
    ImageParts(m, e);
    ImageWords(m, e);
  }

  lemma EntryFound(m: Memory, e: Env, i: nat)
    requires MagicOk(m, e) && LayoutSound(m, e) && i < EntryCount(m, e)
    ensures var img := ImageOf(m, e);
      img.Valid() && |img.slots| == EntryCount(m, e) && EntryIn(m, MetaAt(e), img, PlaceOf(m, e), i)
  {
    ImageSound(m, e);
    SlotFound(m, e, i);
    EntryMatches(m, e, SectionsOf(m, e), ImageOf(m, e), PlaceOf(m, e), i);
  }

  lemma EntryMatches(m: Memory, e: Env, s: Sections, img: Image, p: Place, i: nat)
    requires img.Valid() && i < |img.slots| && MetaAt(e) + 8 + 4 * |img.slots| <= SPACE
    requires p == Place(s.rom, e.ramStart) && img.RamSpan() == RamTouched(s)
    requires img.DataAt() == s.romSize + s.gotSize && img.Total() == FlashSize(s) + s.bssSize
    requires img.slots[i] == SlotAt(m, e, i) && img.targets[i] == TargetOf(m, s, img.slots[i])
    requires SlotSound(s, e, img.slots[i])
    ensures EntryIn(m, MetaAt(e), img, p, i)
  {
    hide WordAt, Image.DataAt, Image.RamSpan, Image.Total, Image.Valid, MetaAt, RamTouched, FlashSize;
  }

  lemma SlotFound(m: Memory, e: Env, i: nat)
    requires MagicOk(m, e) && LayoutSound(m, e) && i < EntryCount(m, e)
    ensures var img, s := ImageOf(m, e), SectionsOf(m, e);
      && |img.slots| == |img.targets| == EntryCount(m, e)
      && img.slots[i] == SlotAt(m, e, i) && img.targets[i] == TargetOf(m, s, img.slots[i])
      && SlotSound(s, e, img.slots[i])
  {
    hide WordAt, SectionsOf, WordsAt, TargetsOf, TargetOf, SlotSound;
  }

  lemma TableFound(m: Memory, e: Env)
    requires MagicOk(m, e) && LayoutSound(m, e)
    ensures ImageOf(m, e).Valid() && TableIn(m, MetaAt(e), ImageOf(m, e), PlaceOf(m, e))
  {
    ImageSound(m, e);
    hide WordAt, SkipZeros, Footer, SlotSound;
    var img := ImageOf(m, e);
    assert MetaAt(e) + 4 < SPACE;
    assert |img.slots| == EntryCount(m, e);
    assert Apart(MetaAt(e), 8 + 4 * |img.slots|, PlaceOf(m, e).ram, img.RamSpan());
    hide ImageOf, LayoutSound, SectionsOf, EntryIn;
    forall i | 0 <= i < |img.slots|
      ensures EntryIn(m, MetaAt(e), img, PlaceOf(m, e), i)
    {
      EntryFound(m, e, i);
    }
  }

  /** Boundaries the RAM phases rely on. */
  ghost predicate PointersAligned(meta: word, s: Sections, img: Image) {
    && meta % 4 == 0 && s.rom % 4 == 0 && s.romSize % 4 == 0 && s.gotSize % 4 == 0 && s.dataSize % 4 == 0
    && s.relGot % 4 == 0
    && forall i :: 0 <= i < |img.slots| ==> img.slots[i] % 4 == 0
  }

  lemma PlacesAligned(meta: word, s: Sections, img: Image, p: Place)
    requires Places(s, img, p) && PointersAligned(meta, s, img)
    ensures s.got % 4 == 0 && s.data % 4 == 0 && s.relGot % 4 == 0 && s.relData % 4 == 0 && s.relBss % 4 == 0
  {
    SameAlignment(s.rom, s.romSize);
    SameAlignment(s.got, s.gotSize);
    SameAlignment(s.relGot, s.gotSize);
    SameAlignment(s.relData, s.dataSize);
  }

  lemma EntryAligned(meta: word, s: Sections, img: Image, p: Place, i: nat)
    requires Places(s, img, p) && Fits(img, p) && PointersAligned(meta, s, img)
    requires i < |img.slots| == |img.targets| && meta + 8 + 4 * |img.slots| <= SPACE
    ensures Add(Add(meta, 8), Times4(i)) % 4 == 0 && Add(s.rom, img.slots[i]) % 4 == 0
    ensures SlotOk(img, i) ==> Reloc(img, p, img.slots[i]) % 4 == 0
  {
    assert img.slots[i] % 4 == 0;
    AddAligned(meta, 8);
    SameAlignment(0, 4 * i);
    AddAligned(Add(meta, 8), Times4(i));
    AddAligned(s.rom, img.slots[i]);
    if SlotOk(img, i) {
      AddAligned(img.slots[i], s.romSize);
      SameAlignment(p.ram, img.slots[i] - s.romSize);
    }
  }

  lemma MetaAligned(e: Env)
    requires e.binBase % 4 == 0 && e.metadataOff % 4 == 0
    ensures MetaAt(e) % 4 == 0
  {
    AddAligned(e.binBase, e.metadataOff);
  }

  lemma AlignedInMemory(m: Memory, e: Env)
    requires MagicOk(m, e) && LayoutSound(m, e)
    ensures RamOk(SectionsOf(m, e), e.ramEnd) && WordAligned(m, e) ==>
      PointersAligned(MetaAt(e), SectionsOf(m, e), ImageOf(m, e))
  {
    hide WordAt, ImageOf, MagicOk, RamOk, LayoutSound, SectionsOf, SlotAt, EntryCount;
    ImageWords(m, e);
    RelGotIs(m, e);
    if RamOk(SectionsOf(m, e), e.ramEnd) && WordAligned(m, e) {
      MetaAligned(e);
    }
  }

  lemma RelGotIs(m: Memory, e: Env)
    requires MagicOk(m, e)
    ensures SectionsOf(m, e).relGot == e.ramStart
  {
  }

  lemma LayoutFacts(m: Memory, e: Env)
    requires MagicOk(m, e) && LayoutSound(m, e)
    ensures var s := SectionsOf(m, e);
      && ImageOf(m, e).bssSize == s.bssSize
      && Add(s.relBss, s.bssSize) == e.ramStart + RamNeeded(s)
  {
  }

  /** All that the RAM phases need to know about the image found in memory. */
  lemma ImageReady(m: Memory, e: Env)
    requires MagicOk(m, e) && RamOk(SectionsOf(m, e), e.ramEnd) && LayoutSound(m, e)
    ensures var img, p, s := ImageOf(m, e), PlaceOf(m, e), SectionsOf(m, e);
      && img.Valid() && Fits(img, p) && Relocatable(m, s, img, p)
      && GotIn(m, s.got, img, p) && TableIn(m, MetaAt(e), img, p)
      && p.ram == e.ramStart && img.GotSize() == s.gotSize && img.RamSpan() == RamTouched(s)
      && (WordAligned(m, e) ==> PointersAligned(MetaAt(e), s, img))
      && Ready(m, e) && MemoryAfter(m, e) == Loaded(img, p, m)
  {
    hide SectionsOf, LayoutSound, ImageOf, Relocatable, GotIn, TableIn, WordAligned, PointersAligned, MagicOk, RamOk,
         Loaded, Fits, RamTouched, RomAt;
    ImageInMemory(m, e);
    ImageSizes(m, e);
    AlignedInMemory(m, e);
  }
}
