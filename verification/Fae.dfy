/** The FAE file format as the builder lays it out. */
module Fae {
  import opened Words
  import opened Masks
  import opened Memories
  import Crt0

  const MAGIC_NUMBER := 0xFACADE00
  const VERSION := 0x12
  const MPU_ALIGNMENT := 32
  const FOOTER_SIZE := 28

  /** MAGIC_NUMBER | VERSION. */
  const MAGIC: word := 0xFACADE12

  /** Builder and loader each define the magic number; they mean the same word. */
  lemma MagicsAgree()
    ensures Or(MAGIC_NUMBER, VERSION) == MAGIC == Crt0.MAGIC
  {
  }

  /** The values of the linker symbols the builder reads. */
  datatype Symbols = Symbols(start: nat, romSize: nat, gotSize: nat, dataSize: nat, bssSize: nat)

  /** What goes into a file: `table` is the exported relocation table as words, the number
      of entries first; `pad` the number of zero bytes before the partition. */
  datatype Parts = Parts(crt0: seq<byte>, symbols: Symbols, table: seq<word>, pad: nat, partition: seq<byte>)
  {
    /** compute_header_size. */
    function Header(): nat { |crt0| + 4 + 4 * |table| }
    function PartitionAt(): nat { Header() + pad }
    function Raw(): nat { PartitionAt() + |partition| }
    function Size(): int { Raw() + Padding(Raw()) + FOOTER_SIZE }

    /** Everything written as a word fits one. */
    predicate Encodable() {
      && Size() < SPACE
      && symbols.start < SPACE && symbols.romSize < SPACE && symbols.gotSize < SPACE
      && symbols.dataSize < SPACE && symbols.bssSize < SPACE
    }
  }

  /** The 0xff bytes between partition and footer. */
  function Padding(raw: nat): (p: int)
    ensures 0 <= p < MPU_ALIGNMENT
  {
    RoundBounds(raw, MPU_ALIGNMENT);
    var p := Round(raw, MPU_ALIGNMENT) - raw;
    (if p < FOOTER_SIZE then p + MPU_ALIGNMENT else p) - FOOTER_SIZE
  }

  /** The size of a file is the least multiple of 32 with room for its parts and the footer. */
  lemma SizeIsLeastMultiple(b: Parts)
    ensures LeastMultiple(b.Size(), b.Raw() + FOOTER_SIZE, MPU_ALIGNMENT)
  {
    hide Round;
    assert IsPow2(MPU_ALIGNMENT) by { assert Pow2(5) == MPU_ALIGNMENT; }
    RoundIsLeastMultiple(b.Raw(), MPU_ALIGNMENT);
    var r, size := Round(b.Raw(), MPU_ALIGNMENT), b.Size();
    assert size == r || size == r + MPU_ALIGNMENT;
    forall s | b.Raw() + FOOTER_SIZE <= s && s % MPU_ALIGNMENT == 0
      ensures size <= s
    {
      assert r <= s;
    }
  }

  lemma LeastIsCeil(r: int, x: nat)
    requires LeastMultiple(r, x, 32)
    ensures r == (x + 31) / 32 * 32
  {
    var q := (x + 31) / 32;
    ModUnique(32 * q, 32, q, 0);
    CeilIsLeast(x, 32, r);
  }

  /** Sizes and limits in numbers: a file is the parts, a word for its size and the footer, rounded
      up to a multiple of 32. */
  lemma SizeExact(b: Parts)
    ensures b.Size() == (|b.crt0| + 4 + 4 * |b.table| + b.pad + |b.partition| + 28 + 31) / 32 * 32
  {
    SizeIsLeastMultiple(b);
    LeastIsCeil(b.Size(), b.Raw() + 28);
    hide Padding;
  }

  /** It can be built exactly when five symbols and that size fit words; 0xFFFFFFE0 is the last
      multiple of 32 that does. */
  lemma EncodableExact(b: Parts)
    ensures b.Encodable() <==>
      && b.symbols.start < 0x1_0000_0000 && b.symbols.romSize < 0x1_0000_0000
      && b.symbols.gotSize < 0x1_0000_0000 && b.symbols.dataSize < 0x1_0000_0000
      && b.symbols.bssSize < 0x1_0000_0000
      && |b.crt0| + 4 + 4 * |b.table| + b.pad + |b.partition| + 28 <= 0xFFFF_FFE0
  {
    SizeIsLeastMultiple(b);
    assert b.Raw() == |b.crt0| + 4 + 4 * |b.table| + b.pad + |b.partition|;
    hide Padding, Parts.Size, Parts.Raw;
    if b.Raw() + 28 <= 0xFFFF_FFE0 {
      assert 0xFFFF_FFE0 % 32 == 0 && b.Size() <= 0xFFFF_FFE0;
    } else {
      MultiplesApart(b.Size());
    }
  }

  lemma MultiplesApart(x: int)
    requires x % 32 == 0 && x > 0xFFFF_FFE0
    ensures x >= SPACE
  {
  }

  function FooterWords(b: Parts): (ws: seq<word>)
    requires b.Encodable()
    ensures |ws| == 7
  {
    [b.symbols.bssSize, b.symbols.gotSize, b.symbols.romSize, b.symbols.dataSize, b.symbols.start, |b.crt0|, MAGIC]
  }

  /** The file built from the parts. */
  function File(b: Parts): (f: seq<byte>)
    requires b.Encodable()
    ensures |f| == b.Size()
  {
    b.crt0 + ToWord(b.Size()) + Concat(b.table) + Zeros(b.pad) + b.partition + Repeat(0xff, Padding(b.Raw()))
    + Concat(FooterWords(b))
  }

  /** Each part is found where the layout says, whatever the parts. */
  lemma FileParts(b: Parts)
    requires b.Encodable()
    ensures var f, h := File(b), |b.crt0|;
      && f[..h] == b.crt0
      && f[h..h + 4] == ToWord(b.Size())
      && f[h + 4..b.Header()] == Concat(b.table)
      && (forall i :: b.Header() <= i < b.PartitionAt() ==> f[i] == 0)
      && f[b.PartitionAt()..b.Raw()] == b.partition
      && (forall i :: b.Raw() <= i < b.Size() - FOOTER_SIZE ==> f[i] == 0xff)
      && f[b.Size() - FOOTER_SIZE..] == Concat(FooterWords(b))
  {
    hide Concat, ToWord, Padding, FooterWords;
    var h := b.crt0;
    var s, t, z, p := ToWord(b.Size()), Concat(b.table), Zeros(b.pad), b.partition;
    var g, w := Repeat(0xff, Padding(b.Raw())), Concat(FooterWords(b));
    Slices(h, s, t, z, p, g, w);
    forall i | b.Header() <= i < b.PartitionAt()
      ensures File(b)[i] == 0
    {
      assert File(b)[i] == File(b)[b.Header()..b.PartitionAt()][i - b.Header()];
    }
    forall i | b.Raw() <= i < b.Size() - FOOTER_SIZE
      ensures File(b)[i] == 0xff
    {
      assert File(b)[i] == File(b)[b.Raw()..b.Size() - FOOTER_SIZE][i - b.Raw()];
    }
  }

  lemma Slices(h: seq<byte>, s: seq<byte>, t: seq<byte>, z: seq<byte>, p: seq<byte>, g: seq<byte>, w: seq<byte>)
    ensures var f := h + s + t + z + p + g + w;
      var a, b, c := |h| + |s|, |h| + |s| + |t|, |h| + |s| + |t| + |z|;
      && f[..|h|] == h && f[|h|..a] == s && f[a..b] == t && f[b..c] == z && f[c..c + |p|] == p
      && f[c + |p|..c + |p| + |g|] == g && f[c + |p| + |g|..] == w
  {
  }

  lemma SliceOfSlice(f: seq<byte>, lo: nat, hi: nat, i: nat, j: nat)
    requires lo <= hi <= |f| && i <= j <= hi - lo
    ensures f[lo..hi][i..j] == f[lo + i..lo + j]
  {
    var s, t := f[lo..hi][i..j], f[lo + i..lo + j];
    assert forall k :: 0 <= k < |s| ==> s[k] == t[k];
  }

  /** The k-th footer word (0 to 6) lies 28 - 4k bytes before the end. */
  lemma FooterWordAt(b: Parts, k: nat)
    requires b.Encodable() && k < 7
    ensures b.Size() >= FOOTER_SIZE
    ensures File(b)[b.Size() - FOOTER_SIZE + 4 * k..b.Size() - FOOTER_SIZE + 4 * k + 4] == ToWord(FooterWords(b)[k])
  {
    hide Concat, ToWord, FooterWords, File, Padding;
    FileParts(b);
    ConcatAt(FooterWords(b), k);
    var f, n := File(b), b.Size() - FOOTER_SIZE;
    assert f[n..] == f[n..b.Size()];
    SliceOfSlice(f, n, b.Size(), 4 * k, 4 * k + 4);
    assert f[n + 4 * k..n + 4 * k + 4] == Concat(FooterWords(b))[4 * k..4 * k + 4];
  }

  lemma TableWordAt(b: Parts, i: nat)
    requires b.Encodable() && i < |b.table|
    ensures File(b)[|b.crt0| + 4 + 4 * i..|b.crt0| + 4 + 4 * i + 4] == ToWord(b.table[i])
  {
    hide Concat, ToWord, FooterWords, File, Padding;
    FileParts(b);
    ConcatAt(b.table, i);
    SliceOfSlice(File(b), |b.crt0| + 4, b.Header(), 4 * i, 4 * i + 4);
  }

  lemma SizeCovers(b: Parts)
    ensures |b.crt0| + 4 + 4 * |b.table| + b.pad + |b.partition| + 28 <= b.Size()
    ensures b.Header() == |b.crt0| + 4 + 4 * |b.table| && b.PartitionAt() == b.Header() + b.pad
    ensures b.Raw() == b.PartitionAt() + |b.partition|
    ensures b.Size() < |b.crt0| + 4 + 4 * |b.table| + b.pad + |b.partition| + 60 && b.Size() % 32 == 0
    ensures b.Encodable() ==> 0 <= b.Size() < SPACE
  {
    SizeIsLeastMultiple(b);
    hide Padding;
  }

  /** The file byte by byte, words as their values: everything in front of the footer, */
  lemma FileFrontExact(b: Parts)
    requires b.Encodable()
    ensures var f, h, t := File(b), |b.crt0|, |b.crt0| + 4 + 4 * |b.table|;
      var at, end := t + b.pad, t + b.pad + |b.partition|;
      && end + 28 <= |f| < end + 60 && |f| % 32 == 0 && f[..h] == b.crt0 && WordOf(f, h) == |f|
      && (forall i :: 0 <= i < |b.table| ==> WordOf(f, h + 4 + 4 * i) == b.table[i])
      && (forall i :: t <= i < at ==> f[i] == 0) && f[at..end] == b.partition
      && (forall i :: end <= i < |f| - 28 ==> f[i] == 0xff)
  {
    SizeCovers(b);
    hide File, ToWord, Concat, FooterWords, WordOf, Parts.Encodable, Parts.Size, Parts.Header, Parts.PartitionAt,
         Parts.Raw;
    FileParts(b);
    WordInSlice(File(b), |b.crt0|, b.Size());
    forall i | 0 <= i < |b.table|
      ensures WordOf(File(b), |b.crt0| + 4 + 4 * i) == b.table[i]
    {
      TableWordAt(b, i);
      WordInSlice(File(b), |b.crt0| + 4 + 4 * i, b.table[i]);
    }
  }

  lemma FooterWordOf(b: Parts, k: nat, at: int)
    requires b.Encodable() && k < 7 && at == b.Size() - 28 + 4 * k
    ensures 0 <= at && at + 4 <= |File(b)| && WordOf(File(b), at) == FooterWords(b)[k]
  {
    FooterWordAt(b, k);
    hide File, ToWord, FooterWords, WordOf, Padding;
    WordInSlice(File(b), at, FooterWords(b)[k]);
  }

  /** and the footer with its seven words, the last one the magic number. */
  lemma FileFooterExact(b: Parts)
    requires b.Encodable()
    ensures var f, n := File(b), |File(b)|;
      && n >= 28
      && WordOf(f, n - 28) == b.symbols.bssSize && WordOf(f, n - 24) == b.symbols.gotSize
      && WordOf(f, n - 20) == b.symbols.romSize && WordOf(f, n - 16) == b.symbols.dataSize
      && WordOf(f, n - 12) == b.symbols.start && WordOf(f, n - 8) == |b.crt0|
      && f[n - 4..] == [0x12, 0xDE, 0xCA, 0xFA]
  {
    SizeCovers(b);
    LastWord(b);
    var n, ws := b.Size(), FooterWords(b);
    assert ws[0] == b.symbols.bssSize && ws[1] == b.symbols.gotSize && ws[2] == b.symbols.romSize;
    assert ws[3] == b.symbols.dataSize && ws[4] == b.symbols.start && ws[5] == |b.crt0|;
    hide File, FooterWords, WordOf, Parts.Size, Parts.Encodable;
    FooterWordOf(b, 0, n - 28);
    FooterWordOf(b, 1, n - 24);
    FooterWordOf(b, 2, n - 20);
    FooterWordOf(b, 3, n - 16);
    FooterWordOf(b, 4, n - 12);
    FooterWordOf(b, 5, n - 8);
  }

  lemma LastWord(b: Parts)
    requires b.Encodable()
    ensures b.Size() >= 4 && File(b)[b.Size() - 4..] == [0x12, 0xDE, 0xCA, 0xFA]
  {
    FooterWordAt(b, 6);
    assert FooterWords(b)[6] == MAGIC && ToWord(MAGIC) == [0x12, 0xDE, 0xCA, 0xFA];
    hide File, ToWord, FooterWords, Padding;
    var f, n := File(b), b.Size();
    assert f[n - 4..] == f[n - 28 + 4 * 6..n - 28 + 4 * 6 + 4];
  }

  /** The last byte of the magic number ends every file. */
  lemma LastByte(b: Parts)
    requires b.Encodable()
    ensures File(b)[b.Size() - 4] == 0x12 && File(b)[b.Size() - 1] == 0xFA
  {
    FooterWordAt(b, 6);
    assert ToWord(MAGIC)[0] == 0x12 && ToWord(MAGIC)[3] == 0xFA;
    hide Concat, ToWord, File;
    var n := b.Size() - 4;
    assert File(b)[n..n + 4][0] == File(b)[n] && File(b)[n..n + 4][3] == File(b)[n + 3];
  }

  /** Scanning past the text padding of a built file ends inside it: exactly at the
      partition when the byte there is not zero, further on when it is. */
  lemma SkipFindsPartition(b: Parts)
    requires b.Encodable()
    ensures b.Header() <= b.PartitionAt() <= FirstNonZero(File(b), b.Header()) <= b.Size() - 4
    ensures FirstNonZero(File(b), b.Header()) == b.PartitionAt() <==> File(b)[b.PartitionAt()] != 0
    ensures b.partition != [] ==> File(b)[b.PartitionAt()] == b.partition[0]
  {
    FileParts(b);
    LastByte(b);
    hide File;
    if b.partition != [] {
      assert File(b)[b.PartitionAt()..b.Raw()][0] == File(b)[b.PartitionAt()];
    }
  }

  /** A partition that starts with a zero byte is taken for padding: a file whose partition
      is 00 01 02 03, and where the scan really stops. */
  lemma ZeroFirstByteSkipped()
    ensures exists b: Parts ::
      && b.Encodable() && b.partition == [0, 1, 2, 3]
      && FirstNonZero(File(b), b.Header()) > b.PartitionAt()
  {
    var b := Parts([1, 2, 3, 4], Symbols(0, 4, 0, 0, 0), [0], 0, [0, 1, 2, 3]);
    assert b.Raw() == 16;
    SkipFindsPartition(b);
  }

  // ----- Text alignment -----

  /** compute_text_alignment. */
  function TextAlignment(header: nat, align: nat): (pad: nat)
  {
    if align > 0 then
      RoundBounds(header, align);
      Round(header, align) - header
    else align
  }

  /** No request adds nothing. A request adds less than itself, and clears from header + align - 1
      the bits that align - 1 has; for a power of two that is the way to its next multiple. */
  lemma TextAlignmentExact(header: nat, align: nat)
    ensures align == 0 ==> TextAlignment(header, align) == 0
    ensures align > 0 ==> TextAlignment(header, align) < align
    ensures var r, x, y := header + TextAlignment(header, align), header + align - 1, align - 1;
      align > 0 ==> forall i: nat :: Bit(r, i) == (Bit(x, i) && !Bit(y, i))
    ensures IsPow2(align) ==> (header + TextAlignment(header, align)) % align == 0
  {
    hide And, Bit, IsPow2;
    if align > 0 {
      RoundBounds(header, align);
      var r, x, y := header + TextAlignment(header, align), header + align - 1, align - 1;
      forall i: nat ensures Bit(r, i) == (Bit(x, i) && !Bit(y, i)) {
        AndBits(x, Not(y), i);
        NotBits(y, i);
      }
    }
    if IsPow2(align) {
      TextAlignmentMinimal(header, align);
    }
  }

  /** With a power of two requested, the partition starts at the first aligned place. */
  lemma TextAlignmentMinimal(header: nat, align: nat)
    requires IsPow2(align)
    ensures 0 < align && LeastMultiple(header + TextAlignment(header, align), header, align)
    ensures TextAlignment(header, align) < align
  {
    RoundIsLeastMultiple(header, align);
    RoundBounds(header, align);
  }

  /** The alignment asked for is reached behind every header, 8 bytes being the shortest,
      exactly when it is a power of two. */
  lemma TextAlignsIffPow2(align: nat)
    requires 0 < align
    ensures (forall header: nat :: 8 <= header ==> (header + TextAlignment(header, align)) % align == 0) <==>
      IsPow2(align)
  {
    hide Round, IsPow2;
    RoundAlignsIffPow2(align, 8);
    assert forall header: nat :: header + TextAlignment(header, align) == Round(header, align);
    if forall header: nat :: 8 <= header ==> (header + TextAlignment(header, align)) % align == 0 {
      forall x | 8 <= x ensures Round(x, align) % align == 0 {
        var header: nat := x;
        assert header + TextAlignment(header, align) == Round(x, align);
      }
    }
  }

  /** A request for multiples of 3 that is missed behind the shortest header. */
  lemma ThreeMissed()
    ensures TextAlignment(8, 3) == 0 && (8 + TextAlignment(8, 3)) % 3 != 0
  {
    assert And(10, -3) == 8;
  }

  lemma {:induction false} Pow2Mod4(k: nat)
    ensures Pow2(k) == 1 || Pow2(k) == 2 || Pow2(k) % 4 == 0
  {
    if k < 2 {
    } else {
      var q := Pow2(k - 2);
      assert Pow2(k) == 4 * q;
      hide Pow2;
      assert 4 * q % 4 == 0;
    }
  }

  lemma MultipleOfFour(x: int, y: int)
    requires 0 < y && y % 4 == 0 && x % y == 0
    ensures x % 4 == 0
  {
    var q := x / y;
    assert x == y * q == 4 * (y / 4 * q);
  }

  /** No power of two, and no alignment at all, takes the partition off a word boundary. */
  lemma PartitionWordAligned(crt0Size: nat, tableWords: nat, align: nat)
    requires crt0Size % 4 == 0 && (align == 0 || IsPow2(align))
    ensures var h := crt0Size + 4 + 4 * tableWords; (h + TextAlignment(h, align)) % 4 == 0
  {
    var h := crt0Size + 4 + 4 * tableWords;
    assert h % 4 == 0;
    if align != 0 {
      var k: nat :| Pow2(k) == align;
      Pow2Mod4(k);
      TextAlignmentMinimal(h, align);
      if align % 4 == 0 {
        MultipleOfFour(h + TextAlignment(h, align), align);
      } else {
        assert h % align == 0;
      }
    }
  }
}
