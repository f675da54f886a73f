/** The whole chain in one go: build a file, write it to flash, start it. */
module Deployment {
  import opened Words
  import opened Masks
  import opened Memories
  import opened Images
  import opened Crt0
  import opened Phases
  import opened Loader
  import opened Fae
  import opened Builder
  import opened Linked
  import opened EndToEnd
  import Agreement
  import Gdbinit

  /** What the script is given. */
  datatype Inputs = Inputs(crt0: seq<byte>, symbols: Symbols, section: RelocSection, align: int, partition: seq<byte>)
  {
    predicate Buildable() {
      0 <= align && Exportable(section) && PartsOf(crt0, symbols, section, align, partition).Encodable()
    }

    function Built(): Parts
      requires Buildable()
    {
      PartsOf(crt0, symbols, section, align, partition)
    }
  }

  /** A built program is well-formed and there is a place for it. */
  ghost predicate Deployable(x: Inputs, e: Env) {
    x.Buildable() ==>
      var b := x.Built();
      && WellFormed(b) && e.metadataOff == |b.crt0| && e.binBase + b.Size() < SPACE
      && e.ramStart + RamTouch(b) < SPACE && Apart(e.binBase, b.Size(), e.ramStart, RamTouch(b))
  }

  /** The same in terms of the inputs: `n` pointers are listed, `at` is where the partition begins,
      `size` the size of the file and `span` the RAM that will be written. */
  lemma DeployableExact(x: Inputs, e: Env, n: nat, at: nat, size: nat, span: nat)
    requires x.Buildable()
    requires n == if x.section.Relocations? then |x.section.entries| else 0
    requires at == |x.crt0| + 8 + 4 * n + TextAlignment(|x.crt0| + 8 + 4 * n, x.align)
    requires size == (at + |x.partition| + 28 + 31) / 32 * 32
    requires span == x.symbols.gotSize + x.symbols.dataSize + (x.symbols.bssSize + 3) / 4 * 4
    ensures Deployable(x, e) <==>
      && |x.partition| == x.symbols.romSize + x.symbols.gotSize + x.symbols.dataSize && |x.partition| > 0
      && x.partition[0] != 0 && x.symbols.gotSize % 4 == 0
      && (forall i :: 0 <= i < n ==>
           || x.section.entries[i].offset + 4 <= |x.partition|
           || x.section.entries[i].offset >= |x.partition| + x.symbols.bssSize)
      && e.metadataOff == |x.crt0| && e.binBase + size < SPACE && e.ramStart + span < SPACE
      && (e.binBase + size <= e.ramStart || e.ramStart + span <= e.binBase)
  {
    hide PartsOf, Exportable, TextAlignment, Parts.Encodable, Parts.Size, Up4;
    var b := x.Built();
    BuiltParts(x.crt0, x.symbols, x.section, x.align, x.partition);
    SizeExact(b);
    SpanIs(b);
    forall i | 0 <= i < n
      ensures b.table[i + 1] == x.section.entries[i].offset
    {
    }
    forall i | 0 < i < |b.table|
      ensures b.table[i] == x.section.entries[i - 1].offset
    {
      assert b.table[(i - 1) + 1] == x.section.entries[i - 1].offset;
    }
  }

  lemma SpanIs(b: Parts)
    ensures RamTouch(b) == b.symbols.gotSize + b.symbols.dataSize + (b.symbols.bssSize + 3) / 4 * 4
  {
  }

  /** Memory f holds the program b as its linker laid it out, seen through the relocation map. */
  ghost predicate Faithful(b: Parts, f: Memory, e: Env)
    requires WellFormed(b)
  {
    forall o: nat :: o < Total(b) ==> FaithfulAt(b, f, e, o)
  }

  ghost predicate FaithfulAt(b: Parts, f: Memory, e: Env, o: nat)
    requires WellFormed(b) && o < Total(b)
  {
    var img, p := LinkImage(b), PlaceFor(b, e);
    && Reloc(img, p, o) < SPACE
    && (PointerAt(b, o) ==> o + 4 <= |b.partition| && WordAt(f, Reloc(img, p, o)) == Reloc(img, p, LinkWord(b, o)))
    && (!InPointer(b, o) ==> f[Reloc(img, p, o)] == LinkMemory(b)[o])
  }

  lemma LoadsFaithful(b: Parts, m: Memory, e: Env)
    requires Loads(b, m, e)
    ensures WellFormed(b) && Ready(m, e) && Faithful(b, MemoryAfter(m, e), e)
  {
    hide Loads, WellFormed, WordAt, LinkImage, MemoryAfter, Ready, PointerAt, InPointer, PlaceFor, LinkWord, Reloc;
    LoadsGives(b, m, e);
    OutcomeReady(b, m, e);
    forall o: nat | o < Total(b)
      ensures FaithfulAt(b, MemoryAfter(m, e), e, o)
    {
      OffsetInSpace(b, m, e, o);
      if PointerAt(b, o) {
        PointersRelocated(b, m, e, o);
      }
      if !InPointer(b, o) {
        BytesPreserved(b, m, e, o);
      }
    }
  }

  lemma OutcomeReady(b: Parts, m: Memory, e: Env)
    requires WellFormed(b) && Programmed(b, m, e)
    ensures Ready(m, e)
  {
    hide *;
    BuiltFileLoads(b, m, e);
  }

  /** A flashing tool: the file's bytes at bin_base. */
  method Flash(d: Device, file: seq<byte>)
    requires d.Valid() && d.binBase + |file| <= SPACE
    modifies d.mem
    ensures d.M() == Splice(old(d.M()), d.binBase, file)
  {
    ghost var m := d.M();
    forall i | 0 <= i < |file| {
      d.mem[d.binBase + i] := file[i];
    }
    assert d.M() == Splice(m, d.binBase, file);
  }

  /** The outcome of starting b at e: the entry point, or the reason why not. */
  ghost predicate EndsAs(b: Parts, e: Env, outcome: Outcome)
    requires WellFormed(b)
  {
    var img, rom := LinkImage(b), PlaceFor(b, e).rom;
    && rom < SPACE && img.Valid()
    && (outcome.Branch? <==> HasRoom(b, e) && FaultFree(b))
    && (outcome.Branch? ==> outcome == Branch(ThumbAddress(Add(rom, b.symbols.start)), e.ramStart))
    && (outcome.Die? ==> Some(outcome.error) == if HasRoom(b, e) then Verdict(img) else Some(NotEnoughRam))
  }

  /** How a run of b at e, from memory m, ends, with memory f. */
  ghost predicate Ends(b: Parts, m: Memory, e: Env, outcome: Outcome, f: Memory)
    requires WellFormed(b)
  {
    && EndsAs(b, e, outcome)
    && (!HasRoom(b, e) ==> f == m)
    && SameOutside(m, f, e.ramStart, e.ramStart + RamTouch(b))
    && Programmed(b, f, e)
    && (outcome.Branch? && Undisputed(b, e) ==> Faithful(b, f, e))
  }

  lemma RunEndsAs(b: Parts, m: Memory, e: Env)
    requires WellFormed(b) && Programmed(b, m, e)
    ensures Ready(m, e) && EndsAs(b, e, OutcomeOf(m, e))
    ensures !HasRoom(b, e) ==> MemoryAfter(m, e) == m
  {
    PartsInFile(b, m, e);
    hide WellFormed, Programmed, OutcomeOf, MemoryAfter, Ready, FaultFree, Parts.Encodable, HasRoom, LinkImage, Verdict,
         ThumbAddress, Add, Fits, Parts.Size;
    BuiltFileLoads(b, m, e);
  }

  lemma RunEnds(b: Parts, m: Memory, e: Env)
    requires WellFormed(b) && Programmed(b, m, e)
    ensures Ready(m, e) && Ends(b, m, e, OutcomeOf(m, e), MemoryAfter(m, e))
    ensures MagicOk(m, e) && RamNeeded(SectionsOf(m, e)) == RamNeed(b) && RamTouched(SectionsOf(m, e)) == RamTouch(b)
    ensures SectionsOf(m, e).bssSize == b.symbols.bssSize
    ensures RamOk(SectionsOf(m, e), e.ramEnd) <==> HasRoom(b, e)
  {
    hide WellFormed, Programmed, OutcomeOf, MemoryAfter, Ready, Faithful, FaultFree, Undisputed, Parts.Encodable,
         MagicOk, SectionsOf, SameOutside, HasRoom, RamOk, EndsAs;
    RunEndsAs(b, m, e);
    FlashIntact(b, m, e);
    RamRight(b, m, e);
    RunFrame(m, e);
    if OutcomeOf(m, e).Branch? && Undisputed(b, e) {
      BranchLoads(b, m, e);
      LoadsFaithful(b, m, e);
    }
  }

  lemma BranchLoads(b: Parts, m: Memory, e: Env)
    requires WellFormed(b) && Programmed(b, m, e) && Undisputed(b, e)
    requires Ready(m, e) && OutcomeOf(m, e).Branch? && EndsAs(b, e, OutcomeOf(m, e))
    ensures Loads(b, m, e)
  {
    hide WellFormed, Programmed, OutcomeOf, Ready, FaultFree, Undisputed, HasRoom, LinkImage;
  }

  lemma RamRight(b: Parts, m: Memory, e: Env)
    requires WellFormed(b) && Programmed(b, m, e)
    ensures MagicOk(m, e) && RamNeeded(SectionsOf(m, e)) == RamNeed(b) && RamTouched(SectionsOf(m, e)) == RamTouch(b)
    ensures SectionsOf(m, e).bssSize == b.symbols.bssSize
    ensures RamOk(SectionsOf(m, e), e.ramEnd) <==> HasRoom(b, e)
  {
    hide InFlash, MagicOk, SectionsOf, RomAt, Parts.Encodable, RamOk;
    ProgrammedInFlash(b, m, e);
    SectionsRoundTrip(b, m, e);
    WellFormedSymbols(b);
    var s := b.symbols;
    RamCheckExact(PlaceFor(b, e).rom, s.romSize, s.gotSize, s.dataSize, s.bssSize, e.ramStart, e.ramEnd);
    hide WellFormed;
  }

  lemma WellFormedSymbols(b: Parts)
    requires WellFormed(b)
    ensures var s := b.symbols; s.romSize < SPACE && s.gotSize < SPACE && s.dataSize < SPACE && s.bssSize < SPACE
  {
  }

  /** What the debugger script, run with the addresses the device had, calls $ram_end. */
  function DebuggerRamEnd(b: Parts, e: Env): int {
    Gdbinit.Value(Gdbinit.Debug(b.symbols, b.PartitionAt(), e.binBase, e.ramStart), Gdbinit.RamEnd)
  }

  lemma RamEndIs(b: Parts, e: Env)
    ensures DebuggerRamEnd(b, e) == e.ramStart + RamNeed(b)
  {
    Gdbinit.ScriptRuns(b.symbols, b.PartitionAt(), e.binBase, e.ramStart);
    hide Gdbinit.Debug, Gdbinit.Value;
  }

  /** What starting b at e means for the fields of the context and the addresses stored to. */
  ghost predicate ContextAfter(b: Parts, e: Env, w: iset<int>, branched: bool, ramStart: word, nvmStart: word,
                               currentGot: word, written: iset<int>)
  {
    && currentGot == e.ramStart
    && ramStart == (if HasRoom(b, e) then DebuggerRamEnd(b, e) else e.ramStart)
    && (HasRoom(b, e) && e.binBase % 32 == 0 ==> nvmStart == e.binBase + b.Size())
    && WritesIn(w, written, e.ramStart, e.ramStart + RamTouch(b))
    && (branched ==> written == w + Range(e.ramStart, e.ramStart + RamTouch(b)))
    && (HasRoom(b, e) && w == iset{} ==>
         (written <= Range(e.ramStart, ramStart) <==> b.symbols.bssSize % 4 == 0))
  }

  /** The parts are made of whole words, apart from the partition's place, and so are the places. */
  ghost predicate WordSized(b: Parts, e: Env) {
    && |b.crt0| % 4 == 0 && b.symbols.romSize % 4 == 0 && b.symbols.dataSize % 4 == 0
    && e.binBase % 4 == 0 && e.ramStart % 4 == 0
    && forall i :: 0 < i < |b.table| ==> b.table[i] % 4 == 0
  }

  lemma WordSizedAligned(b: Parts, m: Memory, e: Env)
    requires WellFormed(b) && Programmed(b, m, e) && WordSized(b, e) && b.PartitionAt() % 4 == 0
    ensures WordAligned(m, e)
  {
    hide WellFormed, Programmed, WordAligned, Parts.PartitionAt;
    BuiltFileAligned(b, m, e);
  }

  /** Starting a programmed file. */
  method StartBuilt(d: Device, ghost b: Parts, ghost m: Memory, ghost e: Env) returns (outcome: Outcome)
    requires d.Valid() && WellFormed(b) && Programmed(b, m, e) && m == d.M() && e == d.Environment()
    modifies d.mem, d`misaligned, d`written, d`ramStart, d`nvmStart, d`currentGot
    ensures Ends(b, m, e, outcome, d.M())
    ensures ContextAfter(b, e, old(d.written), outcome.Branch?, d.ramStart, d.nvmStart, d.currentGot, d.written)
    ensures WordSized(b, e) && b.PartitionAt() % 4 == 0 ==> d.misaligned == old(d.misaligned)
  {
    hide Parts.Encodable, WellFormed, Programmed, Ends, InFlash, OutcomeOf, MemoryAfter, Ready, MagicOk, RamOk,
         SectionsOf, RamNeeded, RamNeed, RamTouched, RamTouch, Round32, EndAt, WordAligned, WritesIn, Range, HasRoom,
         DebuggerRamEnd, Parts.Size, Parts.PartitionAt, WordSized, Device.M;
    RunEnds(b, m, e);
    RamEndIs(b, e);
    if WordSized(b, e) && b.PartitionAt() % 4 == 0 {
      WordSizedAligned(b, m, e);
    }
    if e.binBase % 32 == 0 {
      ProgrammedInFlash(b, m, e);
      FreeFlashFollows(b, m, e);
    }
    outcome := d.Start();
  }

  /** Build, flash and start. Without a file nothing happens. With one the program starts
      exactly when it has room and no pointer goes wrong; it is then in memory as its linker
      meant, unless overlapping pointers are in dispute; stores go to its RAM, whole words of
      it, and nowhere else; the file stays in flash; ram_start moves to the debugger's
      $ram_end, and nvm_start right behind a file on an MPU boundary. Word-sized parts at
      word-aligned places, with no or a power-of-two alignment, cause no misaligned access. */
  method Deploy(x: Inputs, d: Device) returns (outcome: Option<Outcome>)
    requires d.Valid() && Deployable(x, d.Environment())
    modifies d.mem, d`misaligned, d`written, d`ramStart, d`nvmStart, d`currentGot
    ensures outcome.Some? <==> x.Buildable()
    ensures outcome == None ==> d.M() == old(d.M()) && d.written == old(d.written) && d.ramStart == old(d.ramStart)
    ensures outcome.Some? ==>
      var b, e := x.Built(), old(d.Environment());
      && WellFormed(b) && e.binBase + b.Size() <= SPACE
      && Ends(b, Splice(old(d.M()), e.binBase, File(b)), e, outcome.value, d.M())
      && ContextAfter(b, e, old(d.written), outcome.value.Branch?, d.ramStart, d.nvmStart, d.currentGot, d.written)
      && (WordSized(b, e) && (x.align == 0 || IsPow2(x.align)) ==> d.misaligned == old(d.misaligned))
  {
    ghost var e, m := d.Environment(), d.M();
    hide Parts.Encodable, PartsOf, Inputs.Buildable, Inputs.Built, Exportable, WellFormed, Programmed, Ends, InFlash,
         File, Splice, Deployable, ContextAfter, WordSized, IsPow2, Parts.PartitionAt, Parts.Size, Device.M;
    var file, _ := BuildFae(x.crt0, x.symbols, x.section, x.align, x.partition);
    BuildableIs(x);
    if file == None {
      return None;
    }
    DeployableGives(x, m, e);
    PartitionAligned(x, e);
    Flash(d, file.value);
    var o := StartBuilt(d, x.Built(), d.M(), e);
    return Some(o);
  }

  lemma BuildableIs(x: Inputs)
    ensures x.Buildable() <==>
      && 0 <= x.align && Exportable(x.section)
      && PartsOf(x.crt0, x.symbols, x.section, x.align, x.partition).Encodable()
    ensures x.Buildable() ==> x.Built() == PartsOf(x.crt0, x.symbols, x.section, x.align, x.partition)
  {
  }

  lemma PartitionAligned(x: Inputs, e: Env)
    requires x.Buildable()
    ensures WordSized(x.Built(), e) && (x.align == 0 || IsPow2(x.align)) ==> x.Built().PartitionAt() % 4 == 0
  {
    hide IsPow2, Exportable, Parts.Encodable, Parts.PartitionAt;
    if WordSized(x.Built(), e) && (x.align == 0 || IsPow2(x.align)) {
      Agreement.BuiltPartsAligned(x.crt0, x.symbols, x.section, x.align, x.partition);
    }
  }

  lemma DeployableGives(x: Inputs, m: Memory, e: Env)
    requires x.Buildable() && Deployable(x, e)
    ensures var b := x.Built();
      && b.Encodable() && WellFormed(b) && 0 <= b.Size() && e.binBase + b.Size() < SPACE
      && |File(b)| == b.Size() && Programmed(b, Splice(m, e.binBase, File(b)), e)
  {
    hide PartsOf, Exportable, WellFormed, File, Splice, Padding;
    WritingPrograms(x.Built(), m, e);
  }
}
