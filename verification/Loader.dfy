/** The CRT0 as it runs: `_start`, its loops and `memcpy`, over the bytes of memory. */
module Loader {
  import opened Words
  import opened Masks
  import opened Memories
  import opened Images
  import opened Crt0
  import opened Phases

  /** The compare-and-subtract cascade of the GOT pass: relocation below the image size,
      failure above; no subtraction wraps. */
  method RelocateEntry(s: Sections, entry: word, ghost img: Image, ghost p: Place) returns (addr: Option<word>)
    requires Fits(img, p) && Places(s, img, p)
    ensures entry >= img.Total() ==> addr == None
    ensures entry < img.Total() ==> Reloc(img, p, entry) < SPACE && addr == Some(Reloc(img, p, entry))
    ensures addr.Some? <==> entry < s.romSize + s.gotSize + s.dataSize + s.bssSize
    ensures addr.Some? ==>
      addr.value == if entry < s.romSize then s.rom + entry else s.relGot + (entry - s.romSize)
  {
    var off := entry;
    if off < s.romSize {
      return Some(Add(s.rom, off));
    }
    off := Sub(off, s.romSize);
    if off < s.gotSize {
      return Some(Add(s.relGot, off));
    }
    off := Sub(off, s.gotSize);
    if off < s.dataSize {
      return Some(Add(s.relData, off));
    }
    off := Sub(off, s.dataSize);
    if off < s.bssSize {
      return Some(Add(s.relBss, off));
    }
    return None;
  }

  /** The two cascades of the patch pass: first the slot, then what it points to. */
  method RelocatePointer(s: Sections, slot: word, target: word, ghost img: Image, ghost p: Place)
    returns (fault: Option<Error>, ptrAddr: word, addr: word)
    requires Fits(img, p) && Places(s, img, p)
    ensures fault == SlotFault(img, slot, target)
    ensures fault == None ==> ptrAddr == Reloc(img, p, slot) && addr == Reloc(img, p, target)
    ensures var got, data, total := s.romSize, s.romSize + s.gotSize, s.romSize + s.gotSize + s.dataSize + s.bssSize;
      && (slot < got ==> fault == Some(InRom)) && (got <= slot < data ==> fault == Some(InGot))
      && (total <= slot ==> fault == Some(OutOfBounds))
      && (data <= slot < total && got <= target < data ==> fault == Some(InGot))
      && (data <= slot < total && total <= target ==> fault == Some(OutOfBounds))
      && (data <= slot < total && (target < got || data <= target < total) ==>
           && fault == None && ptrAddr == s.relGot + (slot - got)
           && addr == if target < got then s.rom + target else s.relGot + (target - got))
  {
    var ptrOff, off := slot, target;
    ptrAddr, addr := 0, 0;
    if ptrOff < s.romSize {
      return Some(InRom), ptrAddr, addr;
    }
    ptrOff := Sub(ptrOff, s.romSize);
    if ptrOff < s.gotSize {
      return Some(InGot), ptrAddr, addr;
    }
    ptrOff := Sub(ptrOff, s.gotSize);
    if ptrOff < s.dataSize {
      ptrAddr := Add(s.relData, ptrOff);
    } else {
      ptrOff := Sub(ptrOff, s.dataSize);
      if ptrOff >= s.bssSize {
        return Some(OutOfBounds), ptrAddr, addr;
      }
      ptrAddr := Add(s.relBss, ptrOff);
    }
    if off < s.romSize {
      return None, ptrAddr, Add(s.rom, off);
    }
    off := Sub(off, s.romSize);
    if off < s.gotSize {
      return Some(InGot), ptrAddr, addr;
    }
    off := Sub(off, s.gotSize);
    if off < s.dataSize {
      return None, ptrAddr, Add(s.relData, off);
    }
    off := Sub(off, s.dataSize);
    if off < s.bssSize {
      return None, ptrAddr, Add(s.relBss, off);
    }
    return Some(OutOfBounds), ptrAddr, addr;
  }

  /** The memory and the context fields `_start` works on. */
  class Device {
    const mem: array<byte>
    const metadataOff: word
    var binBase: word
    var ramStart: word
    var ramEnd: word
    var nvmStart: word
    var nvmEnd: word
    var currentGot: word
    /** Set once a word, LDM or LDRD access falls off a word boundary. */
    ghost var misaligned: bool
    /** Every address a byte of which was stored to, whatever the value. */
    ghost var written: iset<int>

    ghost predicate Valid() {
      mem.Length == SPACE
    }

    ghost function M(): Memory
      requires Valid()
      reads mem
    {
      mem[..]
    }

    ghost function Environment(): Env
      reads this
    {
      Env(binBase, metadataOff, ramStart, ramEnd)
    }

    method LoadWord(a: word) returns (w: word)
      requires Valid()
      modifies `misaligned
      ensures w == WordAt(M(), a)
      ensures misaligned == (old(misaligned) || a % 4 != 0)
    {
      w := FromLE(mem[a], mem[Add(a, 1)], mem[Add(a, 2)], mem[Add(a, 3)]);
      misaligned := misaligned || a % 4 != 0;
    }

    method StoreWord(a: word, w: word)
      requires Valid() && a + 4 <= SPACE
      modifies mem, `misaligned, `written
      ensures M() == WithWord(old(M()), a, w)
      ensures misaligned == (old(misaligned) || a % 4 != 0)
      ensures written == old(written) + Range(a, a + 4)
    {
      mem[a], mem[a + 1], mem[a + 2], mem[a + 3] := ByteOf(w, 0), ByteOf(w, 1), ByteOf(w, 2), ByteOf(w, 3);
      written := written + Range(a, a + 4);
      misaligned := misaligned || a % 4 != 0;
    }

    /** k bytes loaded, then stored, as one LDM/STM, LDRD/STRD, LDR/STR or LDRB/STRB pair does. */
    method CopyChunk(dest: nat, src: nat, k: nat)
      requires Valid() && dest + k <= SPACE && src + k <= SPACE
      modifies mem, `misaligned, `written
      ensures M() == Copied(old(M()), dest, src, k)
      ensures misaligned == (old(misaligned) || (k >= 4 && OffBoundary(dest, src)))
      ensures written == old(written) + Range(dest, dest + k)
    {
      forall j | 0 <= j < k {
        mem[dest + j] := mem[src + j];
      }
      written := written + Range(dest, dest + k);
      misaligned := misaligned || (k >= 4 && OffBoundary(dest, src));
    }

    /** One phase of memcpy: k-byte chunks for as long as there are k bytes left. */
    method CopyPhase(dest: nat, src: nat, size: nat, k: nat) returns (dest0: nat, src0: nat, n: nat)
      requires Valid() && 0 < k && (k % 4 == 0 || k == 1)
      requires dest + size <= SPACE && src + size <= SPACE && Apart(dest, size, src, size)
      modifies mem, `misaligned, `written
      ensures n < k && n <= size && dest0 == dest + (size - n) && src0 == src + (size - n)
      ensures size < k ==> n == size
      ensures k % 4 == 0 ==> (size - n) % 4 == 0
      ensures M() == Copied(old(M()), dest, src, size - n)
      ensures misaligned == (old(misaligned) || (4 <= k <= size && OffBoundary(dest, src)))
      ensures written == old(written) + Range(dest, dest + (size - n))
    {
      hide M, Copied, OffBoundary, Range;
      ghost var m := M();
      dest0, src0, n := dest, src, size;
      CopiedNone(m, dest, src);
      RangeEmpty(written, dest);
      while n >= k
        invariant n <= size && dest0 == dest + (size - n) && src0 == src + (size - n)
        invariant k % 4 == 0 ==> (size - n) % 4 == 0
        invariant M() == Copied(m, dest, src, size - n)
        invariant n < size ==> k <= size
        invariant misaligned == (old(misaligned) || (4 <= k && n < size && OffBoundary(dest, src)))
        invariant written == old(written) + Range(dest, dest + (size - n))
      {
        if k >= 4 {
          OffBoundaryStays(dest, src, size - n);
        }
        CopyChunk(dest0, src0, k);
        CopiedExtend(m, dest, src, size - n, k);
        RangeExtend(old(written), dest, dest + (size - n), dest + (size - n) + k);
        dest0, src0, n := dest0 + k, src0 + k, n - k;
      }
    }

    /** The phases that move words: chunks of 48 and 8, and one of 4. */
    method CopyWords(dest: nat, src: nat, size: nat) returns (dest0: nat, src0: nat, n: nat)
      requires Valid() && dest + size <= SPACE && src + size <= SPACE && Apart(dest, size, src, size)
      modifies mem, `misaligned, `written
      ensures n < 4 && n <= size && dest0 == dest + (size - n) && src0 == src + (size - n)
      ensures M() == Copied(old(M()), dest, src, size - n)
      ensures misaligned == (old(misaligned) || (size >= 4 && OffBoundary(dest, src)))
      ensures written == old(written) + Range(dest, dest + (size - n))
    {
      hide M, Copied, OffBoundary, Range;
      ghost var m := M();
      dest0, src0, n := CopyPhase(dest, src, size, 48);
      ghost var done := size - n;
      OffBoundaryStays(dest, src, done);
      dest0, src0, n := CopyPhase(dest0, src0, n, 8);
      CopiedExtend(m, dest, src, done, size - n - done);
      RangeExtend(old(written), dest, dest + done, dest + (size - n));
      done := size - n;
      OffBoundaryStays(dest, src, done);
      if n >= 4 {
        CopyChunk(dest0, src0, 4);
        CopiedExtend(m, dest, src, done, 4);
        RangeExtend(old(written), dest, dest + done, dest + (done + 4));
        dest0, src0, n := dest0 + 4, src0 + 4, n - 4;
      }
    }

    /** Copies `size` bytes in chunks of 48, 8, 4 and 1: the destination becomes the source and
        nothing else changes. A word access misses its boundary exactly when one is made and a
        pointer is off. */
    method Memcpy(dest: nat, src: nat, size: nat) returns (r: nat)
      requires Valid() && dest + size <= SPACE && src + size <= SPACE && Apart(dest, size, src, size)
      modifies mem, `misaligned, `written
      ensures r == dest
      ensures M() == Copied(old(M()), dest, src, size)
      ensures forall x: word :: M()[x] == old(if dest <= x < dest + size then mem[src + (x - dest)] else mem[x])
      ensures misaligned == (old(misaligned) || (size >= 4 && (dest % 4 != 0 || src % 4 != 0)))
      ensures written == old(written) + Range(dest, dest + size)
    {
      hide Range;
      ghost var m := M();
      CopiedBytes(m, dest, src, size);
      r := CopyAll(dest, src, size);
      ghost var now := M();
      assert forall x: word :: now[x] == if dest <= x < dest + size then m[src + (x - dest)] else m[x];
    }

    /** The phases of memcpy one after the other. */
    method CopyAll(dest: nat, src: nat, size: nat) returns (r: nat)
      requires Valid() && dest + size <= SPACE && src + size <= SPACE && Apart(dest, size, src, size)
      modifies mem, `misaligned, `written
      ensures r == dest
      ensures M() == Copied(old(M()), dest, src, size)
      ensures misaligned == (old(misaligned) || (size >= 4 && OffBoundary(dest, src)))
      ensures written == old(written) + Range(dest, dest + size)
    {
      hide M, Copied, OffBoundary, Range;
      ghost var m := M();
      var dest0, src0, n := CopyWords(dest, src, size);
      ghost var done := size - n;
      dest0, src0, n := CopyPhase(dest0, src0, n, 1);
      CopiedExtend(m, dest, src, done, size - done);
      RangeExtend(old(written), dest, dest + done, dest + size);
      return dest;
    }

    /** Skips the internal padding; it stops for certain, the magic number being in the way. */
    method SkipPadding(from: word, ghost stop: word) returns (rom: word)
      requires Valid() && M()[stop] != 0
      ensures rom == SkipZeros(M(), from, stop)
      ensures exists k: nat :: rom == (from + k) % SPACE && Scanned(M(), from, k)
    {
      rom := from;
      while mem[rom] == 0
        invariant SkipZeros(M(), from, stop) == SkipZeros(M(), rom, stop)
        decreases Sub(stop, rom)
      {
        assert M()[rom] == 0;
        rom := Add(rom, 1);
      }
      assert M()[rom] != 0;
      assert rom == SkipZeros(M(), from, stop);
      ghost var k := SkipZerosStops(M(), from, stop);
      assert rom == (from + k) % SPACE && Scanned(M(), from, k);
    }

    /** Clears .ram word by word: up to three bytes behind it are cleared with it. */
    method ZeroRam(at: word, size: word)
      requires Valid() && at + Up4(size) < SPACE
      modifies mem, `misaligned, `written
      ensures M() == Splice(old(M()), at, Zeros(Up4(size)))
      ensures forall x: word :: M()[x] == if at <= x < at + (size + 3) / 4 * 4 then 0 else old(M())[x]
      ensures at % 4 == 0 ==> misaligned == old(misaligned)
      ensures written == old(written) + Range(at, at + Up4(size))
    {
      hide *;
      ghost var m, n := M(), WordsIn(size);
      Up4Words(size);
      var i: word := 0;
      SpliceNothing(m, at);
      RangeEmpty(written, at);
      WordStep(at, i);
      while Times4(i) < size
        invariant i <= n && Times4(i) == 4 * i
        invariant M() == Splice(m, at, Zeros(4 * i))
        invariant at % 4 == 0 ==> misaligned == old(misaligned)
        invariant written == old(written) + Range(at, at + 4 * i)
      {
        WordStep(at, i);
        ZeroExtend(m, at, 4 * i);
        StoreWord(Add(at, Times4(i)), 0);
        RangeExtend(old(written), at, at + 4 * i, at + 4 * i + 4);
        i := i + 1;
        WordStep(at, i);
      }
      ClearedBytes(m, at, size);
    }

    /** One turn of the GOT loop. */
    method RelocateGotEntry(s: Sections, i: word, ghost img: Image, ghost p: Place) returns (ok: bool)
      requires Valid() && Fits(img, p) && Places(s, img, p) && i < |img.got| && s.got + 4 * i + 4 < SPACE
      requires WordAt(M(), s.got + 4 * i) == img.got[i]
      modifies mem, `misaligned, `written
      ensures ok <==> GotEntryOk(img, i)
      ensures M() == if ok then WithWord(old(M()), p.ram + 4 * i, Reloc(img, p, img.got[i])) else old(M())
      ensures s.got % 4 == 0 && s.relGot % 4 == 0 ==> misaligned == old(misaligned)
      ensures written == if ok then old(written) + Range(p.ram + 4 * i, p.ram + 4 * i + 4) else old(written)
    {
      EntryAddresses(s, img, p, i);
      hide WordAt, WithWord, Add, Times4, Places, M, Range;
      var off := LoadWord(Add(s.got, Times4(i)));
      var addr := RelocateEntry(s, off, img, p);
      if addr == None {
        return false;
      }
      StoreWord(Add(s.relGot, Times4(i)), addr.value);
      return true;
    }

    /** Rewrites the leading good GOT entries; true when they all are. */
    method RelocateGot(s: Sections, ghost m: Memory, ghost img: Image, ghost p: Place) returns (ok: bool)
      requires Valid() && m == M() && Fits(img, p) && Places(s, img, p) && GotIn(m, s.got, img, p)
      modifies mem, `misaligned, `written
      ensures ok <==> FirstBadGot(img, 0) == |img.got|
      ensures ok <==> forall i :: 0 <= i < |img.got| ==>
        img.got[i] < img.romSize + 4 * |img.got| + |img.data| + img.bssSize
      ensures M() == WithGot(img, p, m, FirstBadGot(img, 0))
      ensures s.got % 4 == 0 && s.relGot % 4 == 0 ==> misaligned == old(misaligned)
      ensures written == old(written) + Range(p.ram, p.ram + 4 * FirstBadGot(img, 0))
    {
      hide *;
      RelocatingStart(m, s, img, p);
      AllGotFine(img);
      RangeEmpty(written, p.ram);
      var i: word := 0;
      while Times4(i) < s.gotSize
        invariant i <= |img.got| && s.gotSize == 4 * |img.got| && Relocating(M(), m, s, img, p, i)
        invariant Times4(i) == 4 * i
        invariant s.got % 4 == 0 && s.relGot % 4 == 0 ==> misaligned == old(misaligned)
        invariant written == old(written) + Range(p.ram, p.ram + 4 * i)
      {
        RelocatingEntry(M(), m, s, img, p, i);
        ghost var now := M();
        ok := RelocateGotEntry(s, i, img, p);
        RelocatingStep(now, m, s, img, p, i);
        if !ok {
          return;
        }
        RangeExtend(old(written), p.ram, p.ram + 4 * i, p.ram + 4 * i + 4);
        i := i + 1;
        WordStep(0, i);
      }
      RelocatingDone(M(), m, s, img, p);
      return true;
    }

    /** One turn of the patch loop. */
    method PatchEntry(meta: word, s: Sections, i: word, ghost img: Image, ghost p: Place) returns (fault: Option<Error>)
      requires Valid() && img.Valid() && Fits(img, p) && Places(s, img, p)
      requires i < |img.slots| && meta + 8 + 4 * |img.slots| <= SPACE && EntryIn(M(), meta, img, p, i)
      modifies mem, `misaligned, `written
      ensures fault == SlotFault(img, img.slots[i], img.targets[i])
      ensures fault == None ==> SlotOk(img, i)
      ensures M() == if fault == None
        then WithWord(old(M()), Reloc(img, p, img.slots[i]), Reloc(img, p, img.targets[i])) else old(M())
      ensures PointersAligned(meta, s, img) ==> misaligned == old(misaligned)
      ensures WritesIn(old(written), written, p.ram + img.GotSize(), p.ram + img.RamSpan())
    {
      hide WordAt, WithWord, PointersAligned, WritesIn, Range;
      ghost var lo, hi := p.ram + img.GotSize(), p.ram + img.RamSpan();
      WritesNone(written, lo, hi);
      if PointersAligned(meta, s, img) {
        EntryAligned(meta, s, img, p, i);
      }
      var slot := LoadWord(Add(Add(meta, 8), Times4(i)));
      var off := LoadWord(Add(s.rom, slot));
      var ptrAddr, addr;
      fault, ptrAddr, addr := RelocatePointer(s, slot, off, img, p);
      if fault == None {
        WritesRange(written, lo, hi, ptrAddr, ptrAddr + 4);
        StoreWord(ptrAddr, addr);
      }
    }

    /** One turn of the patch loop: entry k, after k good ones. */
    method PatchNext(meta: word, s: Sections, ghost m: Memory, k: word, ghost img: Image, ghost p: Place)
      returns (fault: Option<Error>)
      requires Valid() && k < |img.slots| && Patching(M(), m, meta, s, img, p, k)
      modifies mem, `misaligned, `written
      ensures |img.slots| == |img.targets| && fault == SlotFault(img, img.slots[k], img.targets[k])
      ensures fault == None ==> Patching(M(), m, meta, s, img, p, k + 1)
      ensures fault != None ==> FirstBadSlot(img, 0) == k && M() == old(M())
      ensures PointersAligned(meta, s, img) ==> misaligned == old(misaligned)
      ensures WritesIn(old(written), written, p.ram + img.GotSize(), p.ram + img.RamSpan())
    {
      ghost var now := M();
      PatchingEntry(now, m, meta, s, img, p, k);
      hide *;
      fault := PatchEntry(meta, s, k, img, p);
      PatchingStep(now, m, meta, s, img, p, k);
    }

    /** Patches the pointers the leading good entries designate; the first bad one is reported. */
    method PatchPointers(meta: word, s: Sections, ghost m: Memory, ghost img: Image, ghost p: Place)
      returns (fault: Option<Error>)
      requires Valid() && Patching(M(), m, meta, s, img, p, 0)
      modifies mem, `misaligned, `written
      ensures |img.slots| == |img.targets|
      ensures var k := FirstBadSlot(img, 0);
        && fault == (if k < |img.slots| then SlotFault(img, img.slots[k], img.targets[k]) else None)
        && Patching(M(), m, meta, s, img, p, k)
      ensures var k := FirstBadSlot(img, 0);
        var got, data := img.romSize, img.romSize + 4 * |img.got|;
        var total := data + |img.data| + img.bssSize;
        k < |img.slots| ==>
          && (img.slots[k] < got ==> fault == Some(InRom)) && (got <= img.slots[k] < data ==> fault == Some(InGot))
          && (total <= img.slots[k] ==> fault == Some(OutOfBounds))
          && (data <= img.slots[k] < total && got <= img.targets[k] < data ==> fault == Some(InGot))
          && (data <= img.slots[k] < total && total <= img.targets[k] ==> fault == Some(OutOfBounds))
      ensures PointersAligned(meta, s, img) ==> misaligned == old(misaligned)
      ensures WritesIn(old(written), written, p.ram + img.GotSize(), p.ram + img.RamSpan())
    {
      hide *;
      ghost var lo, hi := p.ram + img.GotSize(), p.ram + img.RamSpan();
      WritesNone(written, lo, hi);
      CountAligned(meta, s, img);
      var i: word := 0;
      PatchingTable(M(), m, meta, s, img, p, i);
      FirstSlotFault(img);
      var n := LoadWord(Add(meta, 4));
      while i < n
        invariant n == |img.slots| == |img.targets| && i <= n && Patching(M(), m, meta, s, img, p, i)
        invariant PointersAligned(meta, s, img) ==> misaligned == old(misaligned)
        invariant WritesIn(old(written), written, lo, hi)
      {
        ghost var before := written;
        fault := PatchNext(meta, s, m, i, img, p);
        WritesMore(old(written), before, written, lo, hi);
        if fault != None {
          return;
        }
        i := i + 1;
        PatchingTable(M(), m, meta, s, img, p, i);
        n := LoadWord(Add(meta, 4));
      }
      PatchingDone(M(), m, meta, s, img, p, i);
      return None;
    }

    /** Copies .rom.ram and clears .ram. */
    method Prepare(s: Sections, ghost m: Memory, ghost img: Image, ghost p: Place)
      requires Valid() && m == M() && Relocatable(m, s, img, p)
      modifies mem, `misaligned, `written
      ensures M() == Prepared(img, p, m)
      ensures s.data % 4 == 0 && s.relData % 4 == 0 && s.relBss % 4 == 0 ==> misaligned == old(misaligned)
      ensures written == old(written) + Range(p.ram + img.GotSize(), p.ram + img.RamSpan())
    {
      PreparedInSteps(s, img, p, m);
      RangeExtend(written, s.relData, s.relBss, s.relBss + Up4(s.bssSize));
      hide Prepared, Copied, Splice, Range;
      var _ := Memcpy(s.relData, s.data, s.dataSize);
      ZeroRam(s.relBss, s.bssSize);
    }

    /** Everything `_start` writes to the image's RAM. */
    method Relocate(meta: word, s: Sections, ghost m: Memory, ghost img: Image, ghost p: Place)
      returns (fault: Option<Error>)
      requires Valid() && m == M() && img.Valid() && Relocatable(m, s, img, p)
      requires GotIn(m, s.got, img, p) && TableIn(m, meta, img, p)
      modifies mem, `misaligned, `written
      ensures fault == Verdict(img)
      ensures Fits(img, p) && M() == Loaded(img, p, m)
      ensures PointersAligned(meta, s, img) ==> misaligned == old(misaligned)
      ensures WritesIn(old(written), written, p.ram, p.ram + img.RamSpan())
      ensures fault == None ==> written == old(written) + Range(p.ram, p.ram + img.RamSpan())
      ensures Range(p.ram + img.GotSize(), p.ram + img.RamSpan()) <= written
    {
      assert Fits(img, p) && Places(s, img, p);
      if PointersAligned(meta, s, img) {
        PlacesAligned(meta, s, img, p);
      }
      LoadedCases(img, p, m);
      PreparedReady(m, meta, s, img, p);
      RamPieces(written, img, p);
      hide *;
      ghost var w := written;
      Prepare(s, m, img, p);
      var ok := RelocateGot(s, M(), img, p);
      if !ok {
        return Some(OutOfBounds);
      }
      fault := PatchPointers(meta, s, M(), img, p);
      RamPiecesAgain(w, written, img, p);
      PatchingEnds(M(), meta, s, img, p);
    }

    /** The section addresses and sizes, and the entry point, from the header and footer. */
    method Locate(meta: word, end: word) returns (s: Sections, entry: word)
      requires Valid() && MagicOk(M(), Environment())
      requires meta == MetaAt(Environment()) && end == EndAt(M(), Environment())
      modifies `misaligned
      ensures s == SectionsOf(M(), Environment())
      ensures entry == ThumbAddress(Add(RomAt(M(), Environment()), Footer(M(), Environment(), 12)))
      ensures meta % 4 == 0 && end % 4 == 0 ==> misaligned == old(misaligned)
    {
      hide WordAt, ThumbAddress, Add, Sub, Times4, MakeSections, SkipZeros;
      if meta % 4 == 0 && end % 4 == 0 {
        AddAligned(meta, 4);
        AddAligned(end, 12);
        AddAligned(end, 16);
        AddAligned(end, 20);
        AddAligned(end, 24);
        AddAligned(end, 28);
      }
      var entryOff := LoadWord(Sub(end, 12));
      var romSize := LoadWord(Sub(end, 20));
      var gotSize := LoadWord(Sub(end, 24));
      var dataSize := LoadWord(Sub(end, 16));
      var bssSize := LoadWord(Sub(end, 28));
      var count := LoadWord(Add(meta, 4));
      MagicStopsSkip(M(), Environment());
      var rom := SkipPadding(Add(Add(Add(meta, 4), 4), Times4(count)), Sub(end, 4));
      s := MakeSections(rom, romSize, gotSize, dataSize, bssSize, ramStart);
      entry := ThumbAddress(Add(rom, entryOff));
    }

    /** Relocate, with the image found in memory. */
    method RelocateImage(meta: word, s: Sections, ghost m: Memory, ghost e: Env) returns (fault: Option<Error>)
      requires Valid() && m == M() && MagicOk(m, e) && RamOk(SectionsOf(m, e), e.ramEnd) && LayoutSound(m, e)
      requires meta == MetaAt(e) && s == SectionsOf(m, e)
      modifies mem, `misaligned, `written
      ensures fault == Verdict(ImageOf(m, e))
      ensures M() == MemoryAfter(m, e)
      ensures WordAligned(m, e) ==> misaligned == old(misaligned)
      ensures WritesIn(old(written), written, e.ramStart, e.ramStart + RamTouched(s))
      ensures fault == None ==> written == old(written) + Range(e.ramStart, e.ramStart + RamTouched(s))
      ensures Clears(s, e.ramStart, written)
    {
      hide *;
      ImageReady(m, e);
      fault := Relocate(meta, s, m, ImageOf(m, e), PlaceOf(m, e));
      ClearsIf(s, e.ramStart, ImageOf(m, e), PlaceOf(m, e), written);
    }

    /** `_start` once the magic number is known to be right. */
    method Launch(meta: word, end: word, ghost m: Memory, ghost e: Env) returns (outcome: Outcome)
      requires Valid() && m == M() && e == Environment() && MagicOk(m, e) && Ready(m, e)
      requires meta == MetaAt(e) && end == EndAt(m, e)
      modifies mem, `misaligned, `written, `ramStart, `nvmStart, `currentGot
      ensures outcome == OutcomeOf(m, e)
      ensures M() == MemoryAfter(m, e)
      ensures currentGot == e.ramStart
      ensures if RamOk(SectionsOf(m, e), e.ramEnd)
        then ramStart == e.ramStart + RamNeeded(SectionsOf(m, e)) && nvmStart == Round32(end, 32)
        else ramStart == e.ramStart && nvmStart == old(nvmStart)
      ensures WordAligned(m, e) && meta % 4 == 0 && end % 4 == 0 ==> misaligned == old(misaligned)
      ensures !RamOk(SectionsOf(m, e), e.ramEnd) ==> written == old(written)
      ensures WritesIn(old(written), written, e.ramStart, e.ramStart + RamTouched(SectionsOf(m, e)))
      ensures outcome.Branch? ==>
        written == old(written) + Range(e.ramStart, e.ramStart + RamTouched(SectionsOf(m, e)))
      ensures RamOk(SectionsOf(m, e), e.ramEnd) && old(written) == iset{} ==>
        (written <= Range(e.ramStart, ramStart) <==> SectionsOf(m, e).bssSize % 4 == 0)
    {
      hide M, WordAt, Verdict, Loaded, Round32, ThumbAddress, ImageOf, PlaceOf, LayoutSound, RomAt, MagicOk,
           Add, MakeSections, WordAligned, WritesIn, Range, Clears;
      var s, entry := Locate(meta, end);
      RelGotIs(m, e);
      currentGot := s.relGot;
      if || Add(s.relGot, s.gotSize) > ramEnd
         || Add(s.relData, s.dataSize) > ramEnd
         || Add(s.relBss, s.bssSize) > ramEnd
      {
        WritesNone(written, e.ramStart, e.ramStart + RamTouched(s));
        return Die(NotEnoughRam);
      }
      LayoutFacts(m, e);
      hide SectionsOf, RamNeeded;
      ramStart := Add(s.relBss, s.bssSize);
      nvmStart := Round32(end, 32);
      var fault := RelocateImage(meta, s, m, e);
      if old(written) == iset{} {
        StoresInsideExact(s, e.ramStart, written);
      }
      outcome := if fault == None then Branch(entry, s.relGot) else Die(fault.value);
    }

    /** `_start`, up to the magic number. */
    method Run(ghost m: Memory, ghost e: Env) returns (outcome: Outcome)
      requires Valid() && m == M() && e == Environment() && Ready(m, e)
      modifies mem, `misaligned, `written, `ramStart, `nvmStart, `currentGot
      ensures outcome == OutcomeOf(m, e)
      ensures M() == MemoryAfter(m, e)
      ensures currentGot == if MagicOk(m, e) then e.ramStart else old(currentGot)
      ensures if MagicOk(m, e) && RamOk(SectionsOf(m, e), e.ramEnd)
        then ramStart == e.ramStart + RamNeeded(SectionsOf(m, e)) && nvmStart == Round32(EndAt(m, e), 32)
        else ramStart == e.ramStart && nvmStart == old(nvmStart)
      ensures WordAligned(m, e) ==> misaligned == old(misaligned)
      ensures !(MagicOk(m, e) && RamOk(SectionsOf(m, e), e.ramEnd)) ==> written == old(written)
      ensures MagicOk(m, e) ==>
        WritesIn(old(written), written, e.ramStart, e.ramStart + RamTouched(SectionsOf(m, e)))
      ensures outcome.Branch? ==>
        MagicOk(m, e) && written == old(written) + Range(e.ramStart, e.ramStart + RamTouched(SectionsOf(m, e)))
      ensures MagicOk(m, e) && RamOk(SectionsOf(m, e), e.ramEnd) && old(written) == iset{} ==>
        (written <= Range(e.ramStart, ramStart) <==> SectionsOf(m, e).bssSize % 4 == 0)
      ensures forall x :: x in written && x !in old(written) ==> e.ramStart <= x < ramStart + 3
      ensures outcome.Branch? ==> forall x :: Between(e.ramStart, x, ramStart) ==> x in written
    {
      hide M, WordAt, Verdict, Loaded, Round32, ThumbAddress, ImageOf, PlaceOf, LayoutSound, RomAt, Add, Sub,
           SectionsOf, WritesIn, Range;
      var meta := Add(binBase, metadataOff);
      var size := LoadWord(meta);
      var end := Add(binBase, size);
      if WordAligned(m, e) {
        AddAligned(binBase, metadataOff);
        AddAligned(binBase, size);
        AddAligned(end, 4);
      }
      var magic := LoadWord(Sub(end, 4));
      if magic != MAGIC {
        return Die(InvalidVersion);
      }
      outcome := Launch(meta, end, m, e);
      WritesMean(old(written), written, SectionsOf(m, e), e.ramStart);
    }

    /** The entry point. Whatever memory holds, the run ends as OutcomeOf says and leaves
        MemoryAfter; of the context only ram_start, nvm_start and current_got ever change.
        Nothing outside the RAM claimed is ever stored to but up to three bytes behind it, a start
        stores to all of it, and a run that dies on the magic number or for lack of RAM stores
        nothing. Once past these checks the stores keep inside the RAM claimed, from the old
        ram_start to the new one, exactly when .ram is made of whole words. */
    method Start() returns (outcome: Outcome)
      requires Valid() && Ready(M(), Environment())
      modifies mem, `misaligned, `written, `ramStart, `nvmStart, `currentGot
      ensures outcome == old(OutcomeOf(M(), Environment()))
      ensures M() == old(MemoryAfter(M(), Environment()))
      ensures currentGot == if old(MagicOk(M(), Environment())) then old(ramStart) else old(currentGot)
      ensures if old(MagicOk(M(), Environment()) && RamOk(SectionsOf(M(), Environment()), ramEnd))
        then && ramStart == old(ramStart + RamNeeded(SectionsOf(M(), Environment())))
             && nvmStart == old(Round32(EndAt(M(), Environment()), 32))
        else ramStart == old(ramStart) && nvmStart == old(nvmStart)
      ensures old(WordAligned(M(), Environment())) ==> misaligned == old(misaligned)
      ensures !old(MagicOk(M(), Environment()) && RamOk(SectionsOf(M(), Environment()), ramEnd)) ==>
        written == old(written)
      ensures old(MagicOk(M(), Environment())) ==>
        WritesIn(old(written), written, old(ramStart), old(ramStart + RamTouched(SectionsOf(M(), Environment()))))
      ensures outcome.Branch? ==>
        && old(MagicOk(M(), Environment()))
        && written == old(written) + Range(old(ramStart), old(ramStart + RamTouched(SectionsOf(M(), Environment()))))
      ensures old(MagicOk(M(), Environment()) && RamOk(SectionsOf(M(), Environment()), ramEnd) && written == iset{}) ==>
        (written <= Range(old(ramStart), ramStart) <==> old(SectionsOf(M(), Environment()).bssSize % 4 == 0))
      ensures forall x :: x in written && x !in old(written) ==> old(ramStart) <= x < ramStart + 3
      ensures outcome.Branch? ==> forall x :: Between(old(ramStart), x, ramStart) ==> x in written
    {
      hide M, MagicOk, RamOk, SectionsOf, RamNeeded, Ready, OutcomeOf, MemoryAfter, Round32, EndAt, WordAligned,
           WritesIn, Range;
      outcome := Run(M(), Environment());
    }
  }
}
