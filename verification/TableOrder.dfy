/** The order in which the builder lists pointers: exactly when a load can tell it. */
module TableOrder {
  import opened Words
  import opened Memories
  import opened Images
  import opened PatchOrder
  import opened Crt0
  import opened Fae
  import opened Linked
  import opened EndToEnd

  /** Every pointer `other` lists, b lists. */
  ghost predicate Lists(b: Parts, other: Parts) {
    forall j :: 0 < j < |other.table| ==> exists i :: 0 < i < |b.table| && b.table[i] == other.table[j]
  }

  /** The same program listing the same pointers, some perhaps repeated instead of others. */
  ghost predicate Relisted(other: Parts, b: Parts) {
    && b.table != [] && other == b.(table := other.table)
    && |other.table| == |b.table| && other.table[0] == b.table[0]
    && Lists(b, other) && Lists(other, b)
  }

  /** The same program with its pointers listed in another order. */
  ghost predicate Reordered(other: Parts, b: Parts) {
    && b.table != [] && other.table != [] && other == b.(table := other.table)
    && other.table[0] == b.table[0] && multiset(other.table[1..]) == multiset(b.table[1..])
  }

  lemma ReorderedRelisted(other: Parts, b: Parts)
    requires Reordered(other, b)
    ensures Relisted(other, b)
  {
    hide Lists;
    assert |multiset(other.table[1..])| == |multiset(b.table[1..])|;
    ListsIf(other, b);
    ListsIf(b, other);
  }

  lemma ListsIf(b: Parts, other: Parts)
    requires b.table != [] && other.table != [] && multiset(other.table[1..]) == multiset(b.table[1..])
    ensures Lists(b, other)
  {
    var s, t := b.table[1..], other.table[1..];
    forall j | 0 < j < |other.table|
      ensures exists i :: 0 < i < |b.table| && b.table[i] == other.table[j]
    {
      assert t[j - 1] in multiset(s);
      var k :| 0 <= k < |s| && s[k] == t[j - 1];
      assert b.table[k + 1] == other.table[j];
    }
  }

  /** A program that starts when it is loaded. */
  ghost predicate Starts(b: Parts, m: Memory, e: Env) {
    WellFormed(b) && Programmed(b, m, e) && HasRoom(b, e) && FaultFree(b)
  }

  /** m with the file of b written over what is at bin_base. */
  function Rewritten(b: Parts, m: Memory, e: Env): Memory
    requires b.Encodable() && e.binBase + b.Size() <= SPACE
  {
    Splice(m, e.binBase, File(b))
  }

  /** The RAM of b is the same after both runs. */
  ghost predicate SameRam(b: Parts, m: Memory, m': Memory, e: Env) {
    && Ready(m, e) && Ready(m', e)
    && forall x: word :: e.ramStart <= x < e.ramStart + RamTouch(b) ==> MemoryAfter(m', e)[x] == MemoryAfter(m, e)[x]
  }

  lemma ListedBy(b: Parts, other: Parts, j: nat) returns (i: nat)
    requires Lists(b, other) && 0 < j < |other.table|
    ensures 0 < i < |b.table| && b.table[i] == other.table[j]
  {
    var w := other.table[j];
    i :| 0 < i < |b.table| && b.table[i] == w;
  }

  lemma RelistedWellFormed(other: Parts, b: Parts)
    requires WellFormed(b) && Relisted(other, b)
    ensures WellFormed(other) && other.Size() == b.Size() && other.PartitionAt() == b.PartitionAt()
    ensures FaultFree(b) ==> FaultFree(other)
  {
    hide LinkWord, Padding, Lists;
    forall j | 0 < j < |other.table|
      ensures other.table[j] as int + 4 <= |other.partition| || other.table[j] >= Total(other)
    {
      var _ := ListedBy(b, other, j);
    }
    if FaultFree(b) {
      RelistedFaultFree(other, b);
    }
  }

  lemma RelistedFaultFree(other: Parts, b: Parts)
    requires WellFormed(b) && WellFormed(other) && Relisted(other, b) && FaultFree(b)
    ensures FaultFree(other)
  {
    hide LinkWord, Lists, Parts.Encodable;
    assert b.symbols.romSize + b.symbols.gotSize <= |b.partition|;
    hide WellFormed;
    SameWords(other, b);
    var data := b.symbols.romSize + b.symbols.gotSize;
    forall j | 0 < j < |other.table|
      ensures data <= other.table[j] && other.table[j] as int + 4 <= |b.partition|
      ensures LinkWord(other, other.table[j]) < Total(b)
      ensures !(b.symbols.romSize <= LinkWord(other, other.table[j]) < data)
    {
      var _ := ListedBy(b, other, j);
    }
  }

  lemma SameWords(other: Parts, b: Parts)
    requires other == b.(table := other.table)
    ensures forall o: nat :: o + 4 <= |b.partition| ==> LinkWord(other, o) == LinkWord(b, o)
  {
  }

  /** Relisting changes nothing but table entries, whose pointers keep their values. */
  lemma RelistedImage(other: Parts, b: Parts)
    requires WellFormed(b) && WellFormed(other) && Relisted(other, b)
    ensures SameEntries(LinkImage(other), LinkImage(b)) && |LinkImage(other).slots| == |LinkImage(b).slots|
  {
    hide LinkImage, Lists, Entries, WellFormed;
    SameImageParts(other, b);
    TablesInclude(other, b);
    TablesInclude(b, other);
    LinkSlots(b);
    LinkSlots(other);
  }

  lemma SameImageParts(other: Parts, b: Parts)
    requires WellFormed(b) && WellFormed(other) && other == b.(table := other.table)
    ensures LinkImage(other) == LinkImage(b).(slots := LinkImage(other).slots, targets := LinkImage(other).targets)
  {
    SameWords(other, b);
    hide LinkWord, LinkTargets;
    assert GotWords(other) == GotWords(b);
  }

  lemma TablesInclude(other: Parts, b: Parts)
    requires WellFormed(b) && WellFormed(other) && other == b.(table := other.table) && Lists(b, other)
    ensures Entries(LinkImage(other)) <= Entries(LinkImage(b))
  {
    hide LinkImage, LinkWord, LinkTarget, WellFormed, Lists;
    LinkSlots(b);
    LinkSlots(other);
    var img, img' := LinkImage(b), LinkImage(other);
    forall e | e in Entries(img')
      ensures e in Entries(img)
    {
      var j :| 0 <= j < |img'.slots| && e == (img'.slots[j], img'.targets[j]);
      var i := ListedBy(b, other, j + 1);
      SameTarget(other, b, i);
      assert e == (img.slots[i - 1], img.targets[i - 1]);
    }
  }

  lemma SameTarget(other: Parts, b: Parts, i: nat)
    requires WellFormed(b) && WellFormed(other) && other == b.(table := other.table) && 0 < i < |b.table|
    ensures LinkTarget(other, b.table[i]) == LinkTarget(b, b.table[i])
  {
    SameWords(other, b);
  }

  lemma RewrittenStarts(other: Parts, b: Parts, m: Memory, e: Env)
    requires Starts(b, m, e) && Relisted(other, b)
    ensures WellFormed(other) && e.binBase + other.Size() < SPACE && PlaceFor(other, e) == PlaceFor(b, e)
    ensures RamTouch(other) == RamTouch(b) && Starts(other, Rewritten(other, m, e), e)
  {
    hide LinkWord, FaultFree, File, Splice, Parts.Size;
    RelistedWellFormed(other, b);
    hide Relisted;
    WritingPrograms(other, m, e);
  }

  lemma StartsGives(b: Parts, m: Memory, e: Env)
    requires Starts(b, m, e)
    ensures LinkImage(b).Valid() && Fits(LinkImage(b), PlaceFor(b, e)) && Verdict(LinkImage(b)) == None
    ensures SlotsOk(LinkImage(b)) && LinkImage(b).RamSpan() == RamTouch(b)
    ensures forall j :: 0 <= j < |LinkImage(b).got| ==> GotEntryOk(LinkImage(b), j)
    ensures Ready(m, e) && MemoryAfter(m, e) == Loaded(LinkImage(b), PlaceFor(b, e), m)
    ensures MemoryAfter(m, e)
         == WithPatches(LinkImage(b), PlaceFor(b, e), GotDone(LinkImage(b), PlaceFor(b, e), m), |LinkImage(b).slots|)
  {
    hide LinkImage, PlaceFor, Programmed, WellFormed, FaultFree, Verdict, Loaded, GotDone, WithPatches, MemoryAfter,
         Ready, SlotOk, OutcomeOf, Fits;
    BuiltFileLoads(b, m, e);
    FaultFreeExact(b);
    LinkImageSizes(b);
    LoadedWhenFine(LinkImage(b), PlaceFor(b, e), m);
  }

  // ----- The order does not matter -----

  lemma {:induction false} WithGotSame(img: Image, img': Image, p: Place, m: Memory, k: nat)
    requires img' == img.(slots := img'.slots, targets := img'.targets) && Fits(img, p) && Fits(img', p)
    requires k <= |img.got| && (forall j :: 0 <= j < k ==> GotEntryOk(img, j))
    ensures forall j :: 0 <= j < k ==> GotEntryOk(img', j)
    ensures WithGot(img', p, m, k) == WithGot(img, p, m, k)
    decreases k
  {
    hide WithWord;
    if k == 0 {
    } else {
      WithGotSame(img, img', p, m, k - 1);
      assert GotEntryOk(img, k - 1);
      assert Reloc(img', p, img.got[k - 1]) == Reloc(img, p, img.got[k - 1]);
    }
  }

  lemma GotDoneSame(img: Image, img': Image, p: Place, m: Memory)
    requires img' == img.(slots := img'.slots, targets := img'.targets) && Fits(img, p) && Fits(img', p)
    requires forall j :: 0 <= j < |img.got| ==> GotEntryOk(img, j)
    ensures forall j :: 0 <= j < |img'.got| ==> GotEntryOk(img', j)
    ensures GotDone(img', p, m) == GotDone(img, p, m)
  {
    assert Prepared(img', p, m) == Prepared(img, p, m);
    WithGotSame(img, img', p, Prepared(img, p, m), |img.got|);
  }

  /** A relisted table leaves the RAM of an undisputed program as it was. */
  lemma RelistedAlike(other: Parts, b: Parts, m: Memory, m': Memory, e: Env)
    requires Starts(b, m, e) && Undisputed(b, e) && Relisted(other, b)
    requires Starts(other, m', e) && PlaceFor(other, e) == PlaceFor(b, e)
    ensures SameRam(b, m, m', e)
  {
    hide WithPatches, Loaded, GotDone, LinkImage, PlaceFor, Ready, MemoryAfter, Starts, Undisputed, Consistent,
         SlotsOk, PatchesAlike, SameEntries, Relisted, Verdict, Fits, GotEntryOk;
    StartsWellFormed(b, m, e);
    StartsWellFormed(other, m', e);
    StartsGives(b, m, e);
    StartsGives(other, m', e);
    UndisputedGives(b, e);
    RelistedImage(other, b);
    var img, img', p := LinkImage(b), LinkImage(other), PlaceFor(b, e);
    ImageGives(img', img, p);
    GotDoneSame(img, img', p, m');
    PatchOrderIrrelevant(img, img', p, GotDone(img, p, m'));
    PatchesAlikeGives(img', img, p, GotDone(img, p, m'));
    LoadedWhenFine(img, p, m');
    forall x: word | e.ramStart <= x < e.ramStart + RamTouch(b)
      ensures MemoryAfter(m', e)[x] == MemoryAfter(m, e)[x]
    {
      PlaceRam(b, e);
      LoadedDetermined(img, p, m, m', x);
    }
  }

  lemma StartsWellFormed(b: Parts, m: Memory, e: Env)
    requires Starts(b, m, e)
    ensures WellFormed(b)
  {
  }

  lemma UndisputedGives(b: Parts, e: Env)
    requires WellFormed(b) && Undisputed(b, e)
    ensures var img, p := LinkImage(b), PlaceFor(b, e); img.Valid() && Fits(img, p) && Consistent(img, p)
  {
    hide LinkImage, Consistent, Fits;
  }

  lemma ImageGives(img': Image, img: Image, p: Place)
    requires SameEntries(img', img) && img.Valid()
    ensures img' == img.(slots := img'.slots, targets := img'.targets) && |img.slots| == |img.targets|
  {
  }

  lemma PatchesAlikeGives(other: Image, img: Image, p: Place, m: Memory)
    requires Fits(img, p) && |img.slots| == |img.targets| && SlotsOk(img) && PatchesAlike(other, img, p, m)
    ensures Fits(other, p) && |other.slots| == |other.targets| && SlotsOk(other)
    ensures WithPatches(other, p, m, |other.slots|) == WithPatches(img, p, m, |img.slots|)
  {
    hide WithPatches, SlotOk, Fits;
  }

  lemma PlaceRam(b: Parts, e: Env)
    ensures PlaceFor(b, e).ram == e.ramStart
  {
  }

  // ----- The order matters -----

  /** b with pointer i listed last. */
  function ListedLast(b: Parts, i: nat): Parts
    requires i < |b.table|
  {
    b.(table := Swapped(b.table, i))
  }

  lemma ListedLastReordered(b: Parts, i: nat)
    requires 0 < i < |b.table|
    ensures Reordered(ListedLast(b, i), b) && Relisted(ListedLast(b, i), b)
  {
    var other, s := ListedLast(b, i), b.table[1..];
    assert other.table[1..] == Swapped(s, i - 1);
    SwappedPermutes(s, i - 1);
    hide Relisted, Swapped;
    ReorderedRelisted(other, b);
  }

  /** The byte at offset o of the image is, in memory f, what listed pointer i puts there. */
  ghost predicate Shows(b: Parts, f: Memory, e: Env, i: nat, o: nat)
    requires WellFormed(b)
  {
    var img, p := LinkImage(b), PlaceFor(b, e);
    && Fits(img, p) && i < |img.slots| == |img.targets| && SlotOk(img, i) && Covers(img, i, o)
    && p.ram <= Reloc(img, p, o) < p.ram + RamTouch(b) && Reloc(img, p, o) < SPACE
    && f[Reloc(img, p, o)] == PatchByte(img, p, i, o)
  }

  /** The pointer listed last is right in any case. */
  lemma LastArrives(b: Parts, m: Memory, e: Env, o: nat)
    requires Starts(b, m, e) && |b.table| > 1
    requires b.table[|b.table| - 1] <= o < b.table[|b.table| - 1] as int + 4
    ensures WellFormed(b) && Ready(m, e) && Shows(b, MemoryAfter(m, e), e, |b.table| - 2, o)
  {
    hide WithPatches, Loaded, GotDone, LinkImage, Ready, MemoryAfter, Starts, LinkTarget, PatchByte, SlotOk;
    StartsWellFormed(b, m, e);
    StartsGives(b, m, e);
    LinkSlots(b);
    hide WellFormed;
    var img, p := LinkImage(b), PlaceFor(b, e);
    CoveredInRam(img, |b.table| - 2, o);
    PatchStepByte(img, p, GotDone(img, p, m), |b.table| - 1, o);
  }

  /** Loaded from the same place with its pointers in the other order, b gets the same RAM. */
  ghost predicate LoadsAlike(other: Parts, b: Parts, m: Memory, e: Env) {
    other.Encodable() && e.binBase + other.Size() <= SPACE && SameRam(b, m, Rewritten(other, m, e), e)
  }

  /** Pointer i of b, listed last, shows its bytes; if the order makes no difference they are
      there in the first place. */
  lemma ByteInPlace(b: Parts, m: Memory, e: Env, i: nat, o: nat)
    requires Starts(b, m, e) && 0 < i < |b.table| && LoadsAlike(ListedLast(b, i), b, m, e)
    requires b.table[i] <= o < b.table[i] as int + 4
    ensures WellFormed(b) && Ready(m, e) && Shows(b, MemoryAfter(m, e), e, i - 1, o)
  {
    hide *;
    var other := ListedLast(b, i);
    ListedLastTable(b, i);
    ListedLastReordered(b, i);
    RewrittenStarts(other, b, m, e);
    LoadsAlikeGives(other, b, m, e);
    LastArrives(other, Rewritten(other, m, e), e, o);
    StartsWellFormed(b, m, e);
    ShowsInOrder(other, b, MemoryAfter(Rewritten(other, m, e), e), e, i, o);
    ShowsInRam(b, MemoryAfter(Rewritten(other, m, e), e), MemoryAfter(m, e), e, i - 1, o);
  }

  lemma ListedLastTable(b: Parts, i: nat)
    requires 0 < i < |b.table|
    ensures var other := ListedLast(b, i);
      other == b.(table := other.table) && |other.table| == |b.table| && other.table[|b.table| - 1] == b.table[i]
  {
  }

  lemma LoadsAlikeGives(other: Parts, b: Parts, m: Memory, e: Env)
    requires LoadsAlike(other, b, m, e)
    ensures other.Encodable() && 0 <= other.Size() && e.binBase + other.Size() <= SPACE
    ensures Ready(m, e) && Ready(Rewritten(other, m, e), e)
    ensures forall x: word :: e.ramStart <= x < e.ramStart + RamTouch(b) ==>
      MemoryAfter(Rewritten(other, m, e), e)[x] == MemoryAfter(m, e)[x]
  {
    hide Ready, MemoryAfter, Rewritten, RamTouch, Padding;
  }

  lemma ShowsInOrder(other: Parts, b: Parts, f: Memory, e: Env, i: nat, o: nat)
    requires WellFormed(b) && WellFormed(other) && other == b.(table := other.table)
    requires 0 < i < |b.table| == |other.table| && other.table[|other.table| - 1] == b.table[i]
    requires Shows(other, f, e, |other.table| - 2, o)
    ensures Shows(b, f, e, i - 1, o)
  {
    hide LinkImage, LinkTarget, WellFormed, ByteOf;
    LinkSlots(b);
    LinkSlots(other);
    SameImageParts(other, b);
    SameTarget(other, b, i);
    var img, img', k := LinkImage(b), LinkImage(other), |other.table| - 2;
    assert img'.slots[k] == img.slots[i - 1] && img'.targets[k] == img.targets[i - 1];
    SamePlace(other, b, e);
    hide Fits, PlaceFor;
  }

  lemma SamePlace(other: Parts, b: Parts, e: Env)
    requires other == b.(table := other.table) && |other.table| == |b.table|
    ensures PlaceFor(other, e) == PlaceFor(b, e) && RamTouch(other) == RamTouch(b)
  {
  }

  lemma ShowsInRam(b: Parts, f: Memory, f': Memory, e: Env, i: nat, o: nat)
    requires WellFormed(b) && Shows(b, f, e, i, o)
    requires forall x: word :: e.ramStart <= x < e.ramStart + RamTouch(b) ==> f[x] == f'[x]
    ensures Shows(b, f', e, i, o)
  {
    hide LinkImage, PatchByte, WellFormed, SlotOk, Fits, Reloc, RamTouch;
  }

  lemma OrderFreeUndisputed(b: Parts, m: Memory, e: Env)
    requires Starts(b, m, e)
    requires forall i :: 0 < i < |b.table| ==> LoadsAlike(ListedLast(b, i), b, m, e)
    ensures WellFormed(b) && Undisputed(b, e)
  {
    hide LinkImage, Ready, MemoryAfter, Starts, PatchByte, SlotOk, ListedLast, LoadsAlike, Consistent, LinkTarget,
         Fits, Reloc;
    StartsWellFormed(b, m, e);
    StartsGives(b, m, e);
    LinkSlots(b);
    hide WellFormed;
    var img, p := LinkImage(b), PlaceFor(b, e);
    var f := MemoryAfter(m, e);
    forall i, o: nat | 0 <= i < |img.slots| && Covers(img, i, o)
      ensures SlotOk(img, i) && Reloc(img, p, o) < SPACE && f[Reloc(img, p, o)] == PatchByte(img, p, i, o)
    {
      ByteInPlace(b, m, e, i + 1, o);
    }
    AllAlike(img, p, f);
  }

  /** Listing a program's pointers in any other order leaves the same RAM after a load exactly
      when overlapping pointers are not in dispute; repetitions make no difference either. */
  lemma TableOrderExact(b: Parts, m: Memory, e: Env)
    requires WellFormed(b) && Programmed(b, m, e) && HasRoom(b, e) && FaultFree(b)
    ensures Undisputed(b, e) <==> forall other :: Reordered(other, b) ==> LoadsAlike(other, b, m, e)
    ensures Undisputed(b, e) <==> forall other :: Relisted(other, b) ==> LoadsAlike(other, b, m, e)
  {
    hide WellFormed, Programmed, HasRoom, FaultFree, Undisputed, Reordered, Relisted, ListedLast, SameRam, Rewritten,
         PlaceFor;
    if Undisputed(b, e) {
      forall other | Relisted(other, b) ensures LoadsAlike(other, b, m, e) {
        RewrittenStarts(other, b, m, e);
        WellFormedEncodable(other);
        RelistedAlike(other, b, m, Rewritten(other, m, e), e);
      }
    }
    forall other | Reordered(other, b) ensures Relisted(other, b) {
      ReorderedRelisted(other, b);
    }
    if forall other :: Reordered(other, b) ==> LoadsAlike(other, b, m, e) {
      forall i | 0 < i < |b.table| ensures LoadsAlike(ListedLast(b, i), b, m, e) {
        ListedLastReordered(b, i);
      }
      OrderFreeUndisputed(b, m, e);
    }
  }

  /** Listed pointer i holds, where it has been moved, the relocation of its link-time value. */
  ghost predicate PointerRight(b: Parts, f: Memory, e: Env, i: nat)
    requires WellFormed(b) && 0 < i < |b.table|
  {
    var img, p, slot := LinkImage(b), PlaceFor(b, e), b.table[i];
    && slot as int + 4 <= |b.partition| && Reloc(img, p, slot) < SPACE
    && WordAt(f, Reloc(img, p, slot)) == Reloc(img, p, LinkWord(b, slot))
  }

  lemma RightIsArrived(b: Parts, f: Memory, e: Env, i: nat)
    requires WellFormed(b) && FaultFree(b) && 0 < i < |b.table|
    requires var img, p := LinkImage(b), PlaceFor(b, e); img.Valid() && Fits(img, p) && SlotsOk(img)
    ensures i - 1 < |LinkImage(b).slots| && SlotOk(LinkImage(b), i - 1)
    ensures PointerRight(b, f, e, i) <==> Arrived(LinkImage(b), PlaceFor(b, e), f, i - 1)
  {
    hide WordAt, LinkImage, LinkWord, PlaceFor;
    LinkSlots(b);
    hide WellFormed;
    var img, p := LinkImage(b), PlaceFor(b, e);
    assert SlotOk(img, i - 1);
  }

  /** Every listed pointer is right after a load exactly when none is in dispute. */
  lemma AllRightExact(b: Parts, m: Memory, e: Env)
    requires WellFormed(b) && Programmed(b, m, e) && HasRoom(b, e) && FaultFree(b)
    ensures Ready(m, e)
    ensures Undisputed(b, e) <==> forall i :: 0 < i < |b.table| ==> PointerRight(b, MemoryAfter(m, e), e, i)
  {
    hide FaultFree, LinkImage, PlaceFor, Programmed, WellFormed, MemoryAfter, Ready, Loaded, Consistent, PointerRight,
         Arrived, Verdict, SlotOk, Fits;
    StartsGives(b, m, e);
    TableNotEmpty(b);
    LinkSlots(b);
    var img, p, f := LinkImage(b), PlaceFor(b, e), MemoryAfter(m, e);
    SlotsArriveExact(img, p, m);
    forall i | 0 < i < |b.table|
      ensures PointerRight(b, f, e, i) <==> Arrived(img, p, f, i - 1)
    {
      RightIsArrived(b, f, e, i);
    }
    if forall i :: 0 < i < |b.table| ==> PointerRight(b, f, e, i) {
      forall i | 0 <= i < |img.slots|
        ensures Arrived(img, p, f, i)
      {
        assert PointerRight(b, f, e, i + 1);
      }
    }
  }

  lemma TableNotEmpty(b: Parts)
    requires WellFormed(b)
    ensures b.table != []
  {
  }

  // ----- A dispute -----

  /** Four bytes of .rom and eight of .rom.ram, with pointers at offsets 4 and 6. */
  function Disputed(table: seq<word>): Parts {
    Parts([1, 2, 3, 4], Symbols(0, 4, 0, 8, 0), table, 0, [1, 0, 0, 0, 5, 0, 0, 0, 0, 0, 0, 0])
  }

  lemma DisputedStarts(b: Parts, m: Memory, e: Env)
    requires b == Disputed([2, 4, 6]) || b == Disputed([2, 6, 4])
    requires e == Env(0x0800_0000, 4, 0x2000_0000, 0x2000_1000)
    ensures b.Encodable() && e.binBase + b.Size() <= SPACE && Starts(b, Rewritten(b, m, e), e)
  {
    hide Padding, LinkWord, File, Splice, WellFormed, FaultFree, Programmed;
    assert b.Raw() == 32 && RamTouch(b) == 8 && |b.crt0| == 4;
    assert b.Encodable() && 32 <= b.Size() <= 92;
    DisputedFine(b);
    hide Disputed, Parts.Size;
    WritingPrograms(b, m, e);
  }

  lemma DisputedWords(b: Parts)
    requires b.partition == [1, 0, 0, 0, 5, 0, 0, 0, 0, 0, 0, 0]
    ensures LinkWord(b, 4) == 5 && LinkWord(b, 6) == 0
  {
    FromLEValue(5, 0, 0, 0);
    FromLEValue(0, 0, 0, 0);
    hide FromLE;
  }

  lemma DisputedFine(b: Parts)
    requires b == Disputed([2, 4, 6]) || b == Disputed([2, 6, 4])
    requires b.Encodable()
    ensures WellFormed(b) && FaultFree(b)
  {
    hide LinkWord, Padding, Parts.Encodable;
    DisputedWords(b);
    assert forall i :: 0 < i < |b.table| ==> b.table[i] == 4 || b.table[i] == 6;
  }

  /** Loaded at e, the two programs leave different RAM. */
  ghost predicate Tells(a: Parts, b: Parts, m: Memory, e: Env) {
    && a.Encodable() && b.Encodable() && e.binBase + a.Size() <= SPACE && e.binBase + b.Size() <= SPACE
    && Starts(a, Rewritten(a, m, e), e) && Starts(b, Rewritten(b, m, e), e)
    && Ready(Rewritten(a, m, e), e) && Ready(Rewritten(b, m, e), e)
    && exists x: word :: e.ramStart <= x < e.ramStart + RamTouch(a)
         && MemoryAfter(Rewritten(a, m, e), e)[x] != MemoryAfter(Rewritten(b, m, e), e)[x]
  }

  /** Two builds of one program, its pointers at offsets 4 and 6 of the image listed in
      either order: at the same place they leave different RAM. */
  lemma OverlappingSlotsDependOnOrder(m: Memory)
    ensures exists a: Parts, b: Parts, e: Env :: Reordered(b, a) && Tells(a, b, m, e)
  {
    var a, b, e := Disputed([2, 4, 6]), Disputed([2, 6, 4]), Env(0x0800_0000, 4, 0x2000_0000, 0x2000_1000);
    DisputedReordered();
    hide Starts, Rewritten, MemoryAfter, Ready, Disputed, Reordered, Parts.Size, RamTouch;
    DisputedByte(a, m, e);
    DisputedByte(b, m, e);
    var x: word := 0x2000_0003;
    assert MemoryAfter(Rewritten(a, m, e), e)[x] != MemoryAfter(Rewritten(b, m, e), e)[x];
    assert Tells(a, b, m, e);
  }

  lemma DisputedReordered()
    ensures Reordered(Disputed([2, 6, 4]), Disputed([2, 4, 6])) && RamTouch(Disputed([2, 4, 6])) == 8
  {
    var a := Disputed([2, 4, 6]);
    assert |a.table| == 3 && Disputed([2, 6, 4]) == ListedLast(a, 1);
    hide Reordered;
    ListedLastReordered(a, 1);
  }

  lemma DisputedByte(b: Parts, m: Memory, e: Env)
    requires b == Disputed([2, 4, 6]) || b == Disputed([2, 6, 4])
    requires e == Env(0x0800_0000, 4, 0x2000_0000, 0x2000_1000)
    ensures b.Encodable() && e.binBase + b.Size() <= SPACE
    ensures Starts(b, Rewritten(b, m, e), e) && Ready(Rewritten(b, m, e), e)
    ensures b == Disputed([2, 4, 6]) ==> MemoryAfter(Rewritten(b, m, e), e)[0x2000_0003] == 0
    ensures b == Disputed([2, 6, 4]) ==> MemoryAfter(Rewritten(b, m, e), e)[0x2000_0003] == 0x20
  {
    assert |b.table| == 3 && 4 <= b.table[2] <= 6;
    hide Starts, Rewritten, MemoryAfter, Ready, WellFormed, Shows, Parts.Size, Parts.Encodable, Disputed;
    DisputedStarts(b, m, e);
    LastArrives(b, Rewritten(b, m, e), e, 7);
    DisputedShown(b, MemoryAfter(Rewritten(b, m, e), e), e);
  }

  lemma DisputedBytes()
    ensures ByteOf(0x0800_0014, 1) == 0 && ByteOf(0x2000_0001, 3) == 0x20
  {
  }

  lemma DisputedShown(b: Parts, f: Memory, e: Env)
    requires b == Disputed([2, 4, 6]) || b == Disputed([2, 6, 4])
    requires e == Env(0x0800_0000, 4, 0x2000_0000, 0x2000_1000)
    requires WellFormed(b) && Shows(b, f, e, 1, 7)
    ensures b == Disputed([2, 4, 6]) ==> f[0x2000_0003] == 0
    ensures b == Disputed([2, 6, 4]) ==> f[0x2000_0003] == 0x20
  {
    hide LinkWord, Padding, Fits, GotWords, LinkTargets, ByteOf, SlotOk;
    LinkSlots(b);
    DisputedWords(b);
    DisputedBytes();
    var img, p, t := LinkImage(b), PlaceFor(b, e), b.table[2];
    assert img.romSize == 4 && p == Place(0x0800_0014, 0x2000_0000);
    assert t == if b == Disputed([2, 4, 6]) then 6 else 4;
    assert img.targets[1] == LinkWord(b, t);
    hide LinkImage, PlaceFor, WellFormed, LinkTarget, Disputed, Parts.PartitionAt;
    assert Reloc(img, p, 7) == 0x2000_0003;
  }
}
