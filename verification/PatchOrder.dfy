/** The order of the relocation table: exactly when it matters what is patched last. */
module PatchOrder {
  import opened Words
  import opened Memories
  import opened Images

  ghost function Entries(img: Image): set<(word, word)>
    requires |img.slots| == |img.targets|
  {
    set i | 0 <= i < |img.slots| :: (img.slots[i], img.targets[i])
  }

  /** `sub` is img with a table that lists only entries img's table lists. */
  ghost predicate SubTable(sub: Image, img: Image) {
    && |img.slots| == |img.targets| && |sub.slots| == |sub.targets|
    && sub == img.(slots := sub.slots, targets := sub.targets)
    && Entries(sub) <= Entries(img)
  }

  /** The same entries, in any order and any number of times. */
  ghost predicate SameEntries(other: Image, img: Image) {
    SubTable(other, img) && SubTable(img, other)
  }

  /** The table as a list of entries. */
  function Pairs(img: Image): (s: seq<(word, word)>)
    requires |img.slots| == |img.targets|
    ensures |s| == |img.slots| && forall i :: 0 <= i < |s| ==> s[i] == (img.slots[i], img.targets[i])
  {
    seq(|img.slots|, i requires 0 <= i < |img.slots| => (img.slots[i], img.targets[i]))
  }

  /** The same entries, each as often, in any order. */
  ghost predicate Permuted(other: Image, img: Image) {
    && |img.slots| == |img.targets| && |other.slots| == |other.targets|
    && other == img.(slots := other.slots, targets := other.targets)
    && multiset(Pairs(other)) == multiset(Pairs(img))
  }

  lemma PermutedSame(other: Image, img: Image)
    requires Permuted(other, img)
    ensures SameEntries(other, img)
  {
    PairsEntries(other);
    PairsEntries(img);
    hide Entries, Pairs;
    forall e ensures e in Entries(other) <==> e in Entries(img) {
      assert e in Pairs(other) <==> e in multiset(Pairs(other));
      assert e in Pairs(img) <==> e in multiset(Pairs(img));
    }
  }

  lemma PairsEntries(img: Image)
    requires |img.slots| == |img.targets|
    ensures forall e :: e in Entries(img) <==> e in Pairs(img)
  {
    forall e ensures e in Entries(img) <==> e in Pairs(img) {
      if e in Pairs(img) {
        var i :| 0 <= i < |Pairs(img)| && Pairs(img)[i] == e;
        assert e == (img.slots[i], img.targets[i]);
      }
      if e in Entries(img) {
        var i :| 0 <= i < |img.slots| && e == (img.slots[i], img.targets[i]);
        assert Pairs(img)[i] == e;
      }
    }
  }

  ghost predicate SlotsOk(img: Image)
    requires |img.slots| == |img.targets|
  {
    forall j :: 0 <= j < |img.slots| ==> SlotOk(img, j)
  }

  /** Both tables can be patched in from start to end, and then leave the same memory. */
  ghost predicate PatchesAlike(other: Image, img: Image, p: Place, m: Memory)
    requires Fits(img, p) && |img.slots| == |img.targets| && SlotsOk(img)
  {
    && Fits(other, p) && |other.slots| == |other.targets| && SlotsOk(other)
    && WithPatches(other, p, m, |other.slots|) == WithPatches(img, p, m, |img.slots|)
  }

  lemma SameEntry(img: Image, other: Image, j: nat) returns (i: nat)
    requires |img.slots| == |img.targets| && |other.slots| == |other.targets|
    requires Entries(img) <= Entries(other) && j < |img.slots|
    ensures i < |other.slots| && other.slots[i] == img.slots[j] && other.targets[i] == img.targets[j]
  {
    assert (img.slots[j], img.targets[j]) in Entries(img);
    assert (img.slots[j], img.targets[j]) in Entries(other);
    i :| 0 <= i < |other.slots| && (other.slots[i], other.targets[i]) == (img.slots[j], img.targets[j]);
  }

  /** Entry j of a part of the table, and what it puts, are found in the table. */
  lemma SubTableEntry(sub: Image, img: Image, p: Place, j: nat) returns (i: nat)
    requires img.Valid() && Fits(img, p) && SubTable(sub, img) && SlotsOk(img) && j < |sub.slots|
    ensures Fits(sub, p) && SlotOk(sub, j) && i < |img.slots| && SlotOk(img, i)
    ensures sub.slots[j] == img.slots[i] && sub.targets[j] == img.targets[i]
    ensures sub.DataAt() <= sub.slots[j] < sub.Total() ==> sub.slots[j] as int + 4 <= sub.Total()
    ensures forall o: nat :: Covers(sub, j, o) ==>
      Covers(img, i, o) && PatchByte(sub, p, j, o) == PatchByte(img, p, i, o)
  {
    hide Entries;
    i := SameEntry(sub, img, j);
    assert SlotOk(img, i);
    assert Reloc(sub, p, sub.targets[j]) == Reloc(img, p, img.targets[i]);
    hide ByteOf, Reloc, Fits;
  }

  lemma SubTableSound(sub: Image, img: Image, p: Place)
    requires img.Valid() && Fits(img, p) && SubTable(sub, img) && SlotsOk(img)
    ensures sub.Valid() && Fits(sub, p) && SlotsOk(sub)
    ensures Consistent(img, p) ==> Consistent(sub, p)
  {
    hide Entries, Consistent, PatchByte, SlotOk;
    forall j | 0 <= j < |sub.slots|
      ensures SlotOk(sub, j) && (sub.DataAt() <= sub.slots[j] < sub.Total() ==> sub.slots[j] as int + 4 <= sub.Total())
    {
      var _ := SubTableEntry(sub, img, p, j);
    }
    if Consistent(img, p) {
      forall i, j, o: nat | 0 <= i < |sub.slots| && 0 <= j < |sub.slots| && Covers(sub, i, o) && Covers(sub, j, o)
        ensures PatchByte(sub, p, i, o) == PatchByte(sub, p, j, o)
      {
        var i' := SubTableEntry(sub, img, p, i);
        var j' := SubTableEntry(sub, img, p, j);
        ConsistentAt(img, p, i', j', o);
      }
      AgreeEverywhere(sub, p);
    }
  }

  lemma AgreeEverywhere(img: Image, p: Place)
    requires Fits(img, p) && |img.slots| == |img.targets| && SlotsOk(img)
    requires forall i, j, o: nat ::
      0 <= i < |img.slots| && 0 <= j < |img.slots| && Covers(img, i, o) && Covers(img, j, o) ==>
      PatchByte(img, p, i, o) == PatchByte(img, p, j, o)
    ensures Consistent(img, p)
  {
    hide PatchByte, SlotOk;
  }

  // ----- Consistent tables -----

  /** The byte at offset o after patching depends on the entries alone, not on their order. */
  lemma PatchedAlike(img: Image, other: Image, p: Place, m: Memory, o: nat)
    requires img.Valid() && Fits(img, p) && SlotsOk(img) && Consistent(img, p) && SameEntries(other, img)
    requires img.romSize <= o < img.Total()
    ensures Fits(other, p) && SlotsOk(other) && Reloc(img, p, o) < SPACE
    ensures WithPatches(other, p, m, |other.slots|)[Reloc(img, p, o)]
         == WithPatches(img, p, m, |img.slots|)[Reloc(img, p, o)]
  {
    hide WithPatches, SlotOk, Consistent, PatchByte, Entries;
    SubTableSound(other, img, p);
    assert Reloc(other, p, o) == Reloc(img, p, o);
    if j :| 0 <= j < |other.slots| && Covers(other, j, o) {
      var i := SubTableEntry(other, img, p, j);
      PatchedByte(img, p, m, |img.slots|, i, o);
      PatchedByte(other, p, m, |other.slots|, j, o);
    } else {
      forall i | 0 <= i < |img.slots| ensures !Covers(img, i, o) {
        var j := SameEntry(img, other, i);
        assert !Covers(other, j, o);
      }
      UnpatchedByte(img, p, m, |img.slots|, o);
      UnpatchedByte(other, p, m, |other.slots|, o);
    }
  }

  /** A second pass over listed entries rewrites what is there already. */
  lemma RepatchedAlike(img: Image, again: Image, p: Place, m: Memory, o: nat)
    requires img.Valid() && Fits(img, p) && SlotsOk(img) && Consistent(img, p) && SubTable(again, img)
    requires img.romSize <= o < img.Total()
    ensures Fits(again, p) && SlotsOk(again) && Reloc(img, p, o) < SPACE
    ensures var f := WithPatches(img, p, m, |img.slots|);
      WithPatches(again, p, f, |again.slots|)[Reloc(img, p, o)] == f[Reloc(img, p, o)]
  {
    hide WithPatches, SlotOk, Consistent, PatchByte, Entries;
    SubTableSound(again, img, p);
    var f := WithPatches(img, p, m, |img.slots|);
    assert Reloc(again, p, o) == Reloc(img, p, o);
    if j :| 0 <= j < |again.slots| && Covers(again, j, o) {
      var i := SubTableEntry(again, img, p, j);
      PatchedByte(img, p, m, |img.slots|, i, o);
      PatchedByte(again, p, f, |again.slots|, j, o);
    } else {
      UnpatchedByte(again, p, f, |again.slots|, o);
    }
  }

  /** Memories that agree outside the image's RAM and at each of its RAM offsets are equal. */
  lemma SameMemory(img: Image, p: Place, f: Memory, f': Memory)
    requires Fits(img, p)
    requires SameOutside(f, f', p.ram, p.ram + img.RamSize())
    requires forall o: nat :: img.romSize <= o < img.Total() ==> f'[Reloc(img, p, o)] == f[Reloc(img, p, o)]
    ensures f' == f
  {
    forall x: word ensures f'[x] == f[x] {
      if p.ram <= x < p.ram + img.RamSize() {
        var o: nat := x - p.ram + img.romSize;
        assert Reloc(img, p, o) == x;
      }
    }
  }

  /** Two tables listing the same entries, in any order and any number of times, leave the
      same memory when their entries agree where they overlap. */
  lemma PatchOrderIrrelevant(img: Image, other: Image, p: Place, m: Memory)
    requires img.Valid() && Fits(img, p) && SlotsOk(img) && Consistent(img, p) && SameEntries(other, img)
    ensures PatchesAlike(other, img, p, m)
  {
    hide WithPatches, Consistent, SlotOk, Entries;
    SubTableSound(other, img, p);
    var f, f' := WithPatches(img, p, m, |img.slots|), WithPatches(other, p, m, |other.slots|);
    WithPatchesFrame(img, p, m, |img.slots|);
    WithPatchesFrame(other, p, m, |other.slots|);
    forall o: nat | img.romSize <= o < img.Total() ensures f'[Reloc(img, p, o)] == f[Reloc(img, p, o)] {
      PatchedAlike(img, other, p, m, o);
    }
    SameMemory(img, p, f, f');
  }

  /** `again` can be patched in over f, and f stays as it is. */
  ghost predicate Keeps(again: Image, p: Place, f: Memory) {
    && Fits(again, p) && |again.slots| == |again.targets| && SlotsOk(again)
    && WithPatches(again, p, f, |again.slots|) == f
  }

  /** Patching once more, with any part of a consistent table, changes nothing. */
  lemma PatchIdempotent(img: Image, again: Image, p: Place, m: Memory)
    requires img.Valid() && Fits(img, p) && SlotsOk(img) && Consistent(img, p) && SubTable(again, img)
    ensures Keeps(again, p, WithPatches(img, p, m, |img.slots|))
  {
    hide WithPatches, Consistent, SlotOk, Entries;
    SubTableSound(again, img, p);
    var f := WithPatches(img, p, m, |img.slots|);
    var f' := WithPatches(again, p, f, |again.slots|);
    WithPatchesFrame(again, p, f, |again.slots|);
    forall o: nat | img.romSize <= o < img.Total() ensures f'[Reloc(img, p, o)] == f[Reloc(img, p, o)] {
      RepatchedAlike(img, again, p, m, o);
    }
    SameMemory(img, p, f, f');
  }

  /** What a table makes of a byte it covers does not depend on what was there. */
  lemma {:induction false} CoveredAlike(img: Image, p: Place, m: Memory, m': Memory, k: nat, i: nat, o: nat)
    requires img.Valid() && Fits(img, p) && SlotsOk(img) && i < k <= |img.slots| && Covers(img, i, o)
    ensures Reloc(img, p, o) < SPACE
    ensures WithPatches(img, p, m, k)[Reloc(img, p, o)] == WithPatches(img, p, m', k)[Reloc(img, p, o)]
    decreases k
  {
    hide WithPatches, PatchByte;
    assert SlotOk(img, i);
    CoveredInRam(img, i, o);
    PatchStepByte(img, p, m, k, o);
    PatchStepByte(img, p, m', k, o);
    if Covers(img, k - 1, o) {
    } else {
      CoveredAlike(img, p, m, m', k - 1, i, o);
    }
  }

  /** Patching the whole table twice is patching it once, consistent or not. */
  lemma WholeTableTwice(img: Image, p: Place, m: Memory)
    requires img.Valid() && Fits(img, p) && SlotsOk(img)
    ensures Keeps(img, p, WithPatches(img, p, m, |img.slots|))
  {
    hide WithPatches, SlotOk;
    var n := |img.slots|;
    var f := WithPatches(img, p, m, n);
    var f' := WithPatches(img, p, f, n);
    WithPatchesFrame(img, p, f, n);
    forall o: nat | img.romSize <= o < img.Total() ensures f'[Reloc(img, p, o)] == f[Reloc(img, p, o)] {
      if i :| 0 <= i < n && Covers(img, i, o) {
        CoveredAlike(img, p, m, f, n, i, o);
      } else {
        UnpatchedByte(img, p, f, n, o);
      }
    }
    SameMemory(img, p, f, f');
  }

  // ----- What is patched last wins -----

  /** s with element i and the last one exchanged. */
  function Swapped<T>(s: seq<T>, i: nat): (r: seq<T>)
    requires i < |s|
    ensures |r| == |s| && r[|s| - 1] == s[i] && r[i] == s[|s| - 1]
    ensures forall j :: 0 <= j < |s| - 1 && j != i ==> r[j] == s[j]
  {
    s[i := s[|s| - 1]][|s| - 1 := s[i]]
  }

  /** The image with its table reordered so that entry i comes last. */
  function Last(img: Image, i: nat): Image
    requires i < |img.slots| == |img.targets|
  {
    img.(slots := Swapped(img.slots, i), targets := Swapped(img.targets, i))
  }

  lemma SwappedPermutes<T>(s: seq<T>, i: nat)
    requires i < |s|
    ensures multiset(Swapped(s, i)) == multiset(s)
  {
  }

  lemma LastPermuted(img: Image, i: nat)
    requires i < |img.slots| == |img.targets|
    ensures Permuted(Last(img, i), img) && SameEntries(Last(img, i), img)
  {
    assert Pairs(Last(img, i)) == Swapped(Pairs(img), i);
    SwappedPermutes(Pairs(img), i);
    hide Swapped, Entries;
    PermutedSame(Last(img, i), img);
  }

  /** The bytes of the entry patched last are what it puts. */
  lemma LastWins(img: Image, p: Place, m: Memory, i: nat, o: nat)
    requires img.Valid() && Fits(img, p) && SlotsOk(img) && i < |img.slots| && Covers(img, i, o)
    ensures var r := Last(img, i);
      && Fits(r, p) && |r.slots| == |r.targets| && SlotsOk(r) && SlotOk(img, i) && Reloc(img, p, o) < SPACE
      && WithPatches(r, p, m, |r.slots|)[Reloc(img, p, o)] == PatchByte(img, p, i, o)
  {
    hide WithPatches, Entries, ByteOf, Swapped;
    var r, n := Last(img, i), |img.slots|;
    LastPermuted(img, i);
    SubTableSound(r, img, p);
    assert SlotOk(img, i) && SlotOk(r, n - 1);
    CoveredInRam(img, i, o);
    assert Covers(r, n - 1, o) && Reloc(r, p, o) == Reloc(img, p, o);
    assert Reloc(r, p, r.targets[n - 1]) == Reloc(img, p, img.targets[i]);
    PatchStepByte(r, p, m, n, o);
  }

  /** If the reorderings of a table leave one memory, the table is consistent. */
  lemma OrderFreeConsistent(img: Image, p: Place, m: Memory)
    requires img.Valid() && Fits(img, p) && SlotsOk(img)
    requires forall i :: 0 <= i < |img.slots| ==> PatchesAlike(Last(img, i), img, p, m)
    ensures Consistent(img, p)
  {
    hide WithPatches, PatchByte, Last, SlotOk;
    var f := WithPatches(img, p, m, |img.slots|);
    forall i | 0 <= i < |img.slots|
      ensures SlotOk(img, i) && forall o: nat :: Covers(img, i, o) ==>
        Reloc(img, p, o) < SPACE && f[Reloc(img, p, o)] == PatchByte(img, p, i, o)
    {
      assert PatchesAlike(Last(img, i), img, p, m);
      forall o: nat | Covers(img, i, o)
        ensures Reloc(img, p, o) < SPACE && f[Reloc(img, p, o)] == PatchByte(img, p, i, o)
      {
        LastWins(img, p, m, i, o);
      }
    }
    AllAlike(img, p, f);
  }

  /** The order of the table, and repetitions in it, make no difference exactly when entries
      put the same bytes wherever they overlap; its permutations show it already. */
  lemma PatchOrderExact(img: Image, p: Place, m: Memory)
    requires img.Valid() && Fits(img, p) && SlotsOk(img)
    ensures Consistent(img, p) <==> forall other :: SameEntries(other, img) ==> PatchesAlike(other, img, p, m)
    ensures Consistent(img, p) <==> forall other :: Permuted(other, img) ==> PatchesAlike(other, img, p, m)
  {
    hide SlotsOk, Consistent, SameEntries, Permuted, PatchesAlike, Fits;
    if Consistent(img, p) {
      forall other | SameEntries(other, img) ensures PatchesAlike(other, img, p, m) {
        PatchOrderIrrelevant(img, other, p, m);
      }
    }
    forall other | Permuted(other, img) ensures SameEntries(other, img) {
      PermutedSame(other, img);
    }
    if forall other :: Permuted(other, img) ==> PatchesAlike(other, img, p, m) {
      forall i | 0 <= i < |img.slots| ensures PatchesAlike(Last(img, i), img, p, m) {
        LastPermuted(img, i);
      }
      OrderFreeConsistent(img, p, m);
    }
  }

  // ----- Patching parts of a table again -----

  /** The image with entry i for its whole table. */
  function Only(img: Image, i: nat): Image
    requires i < |img.slots| == |img.targets|
  {
    img.(slots := [img.slots[i]], targets := [img.targets[i]])
  }

  lemma OnlyPart(img: Image, i: nat)
    requires i < |img.slots| == |img.targets|
    ensures SubTable(Only(img, i), img)
  {
    var r := Only(img, i);
    forall e | e in Entries(r) ensures e in Entries(img) {
      var j :| 0 <= j < |r.slots| && e == (r.slots[j], r.targets[j]);
      assert j == 0 && e == (img.slots[i], img.targets[i]);
    }
  }

  /** A memory that entry i, patched again, leaves as it is holds what the entry puts. */
  lemma KeptByOnly(img: Image, p: Place, f: Memory, i: nat, o: nat)
    requires img.Valid() && Fits(img, p) && SlotsOk(img) && i < |img.slots| && Covers(img, i, o)
    requires Keeps(Only(img, i), p, f)
    ensures SlotOk(img, i) && Reloc(img, p, o) < SPACE && f[Reloc(img, p, o)] == PatchByte(img, p, i, o)
  {
    hide WithPatches, Entries, ByteOf;
    var r := Only(img, i);
    OnlyPart(img, i);
    SubTableSound(r, img, p);
    assert SlotOk(img, i) && SlotOk(r, 0) && Covers(r, 0, o);
    CoveredInRam(img, i, o);
    assert Reloc(r, p, o) == Reloc(img, p, o) && Reloc(r, p, r.targets[0]) == Reloc(img, p, img.targets[i]);
    PatchStepByte(r, p, f, 1, o);
  }

  /** Every part of a table may be patched again without effect exactly when the table is
      consistent. */
  lemma PatchIdempotentExact(img: Image, p: Place, m: Memory)
    requires img.Valid() && Fits(img, p) && SlotsOk(img)
    ensures Consistent(img, p) <==>
      forall again :: SubTable(again, img) ==> Keeps(again, p, WithPatches(img, p, m, |img.slots|))
  {
    hide WithPatches, PatchByte, Consistent, SubTable, Keeps, Only, SlotOk;
    var f := WithPatches(img, p, m, |img.slots|);
    if Consistent(img, p) {
      forall again | SubTable(again, img) ensures Keeps(again, p, f) {
        PatchIdempotent(img, again, p, m);
      }
    }
    if forall again :: SubTable(again, img) ==> Keeps(again, p, f) {
      forall i, o: nat | 0 <= i < |img.slots| && Covers(img, i, o)
        ensures SlotOk(img, i) && Reloc(img, p, o) < SPACE && f[Reloc(img, p, o)] == PatchByte(img, p, i, o)
      {
        OnlyPart(img, i);
        KeptByOnly(img, p, f, i, o);
      }
      AllAlike(img, p, f);
    }
  }
}
