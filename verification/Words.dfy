/** Bytes, 32-bit words with wrap-around, and the little-endian encoding shared by
    the builder, the reader and the loader. */
module Words {

  const SPACE := 0x1_0000_0000

  type byte = x: int | 0 <= x < 256
  type word = x: int | 0 <= x < 0x1_0000_0000

  datatype Option<+T> = None | Some(value: T)

  /** uint32_t addition and subtraction. */
  function Add(a: word, b: word): word {
    if a + b < SPACE then a + b else a + b - SPACE
  }

  function Sub(a: word, b: word): word {
    if b <= a then a - b else a - b + SPACE
  }

  /** uint32_t `i << 2`, also a multiplication by the size of a table entry. */
  function Times4(i: word): word {
    if i < 0x4000_0000 then 4 * i else 4 * i % SPACE
  }

  /** How many words cover n bytes. */
  function WordsIn(n: nat): (k: nat)
    ensures n <= 4 * k < n + 4
  {
    (n + 3) / 4
  }

  /** The least multiple of 4 that is not below n. */
  function Up4(n: nat): (r: nat)
    ensures n <= r < n + 4
  {
    4 * WordsIn(n)
  }

  lemma Up4Words(n: nat)
    ensures Up4(n) == 4 * WordsIn(n)
  {
  }

  lemma Up4Exact(n: nat)
    ensures Up4(n) % 4 == 0
    ensures Up4(n) == n <==> n % 4 == 0
  {
  }

  /** Byte number k of the little-endian encoding of w. */
  function ByteOf(w: word, k: nat): byte
    requires k < 4
  {
    if k == 0 then w % 256
    else if k == 1 then w / 256 % 256
    else if k == 2 then w / 256 / 256 % 256
    else w / 256 / 256 / 256
  }

  function ToWord(w: word): (s: seq<byte>)
    ensures |s| == 4
  {
    [ByteOf(w, 0), ByteOf(w, 1), ByteOf(w, 2), ByteOf(w, 3)]
  }

  /** `int.from_bytes(s, 'little')`, for any number of bytes. */
  function FromBytes(s: seq<byte>): (n: nat)
    ensures |s| == 1 ==> n < 0x100
    ensures |s| == 2 ==> n < 0x1_0000
    ensures |s| == 3 ==> n < 0x100_0000
    ensures |s| == 4 ==> n < SPACE
  {
    if s == [] then 0 else s[0] as int + 256 * FromBytes(s[1..])
  }

  /** A word read from four bytes. */
  function FromLE(b0: byte, b1: byte, b2: byte, b3: byte): word {
    FromBytes([b0, b1, b2, b3])
  }

  lemma FromLEValue(b0: byte, b1: byte, b2: byte, b3: byte)
    ensures FromLE(b0, b1, b2, b3) == b0 as int + 256 * (b1 as int + 256 * (b2 as int + 256 * (b3 as int)))
  {
    var s := [b0, b1, b2, b3];
    assert s[1..] == [b1, b2, b3] && s[1..][1..] == [b2, b3] && s[1..][1..][1..] == [b3];
    assert FromBytes([b3]) == b3 as int + 256 * FromBytes([b3][1..]);
    assert FromBytes([b2, b3]) == b2 as int + 256 * FromBytes([b3]);
    assert FromBytes([b1, b2, b3]) == b1 as int + 256 * FromBytes([b2, b3]);
  }

  /** The word whose little-endian encoding starts at offset `at` of s. */
  function WordOf(s: seq<byte>, at: nat): word
    requires at + 4 <= |s|
  {
    FromLE(s[at], s[at + 1], s[at + 2], s[at + 3])
  }

  lemma WordOfValue(s: seq<byte>, at: nat)
    requires at + 4 <= |s|
    ensures WordOf(s, at) as int == s[at] as int + 0x100 * (s[at + 1] as int) + 0x1_0000 * (s[at + 2] as int)
                                    + 0x100_0000 * (s[at + 3] as int)
  {
    FromLEValue(s[at], s[at + 1], s[at + 2], s[at + 3]);
  }

  function Concat(ws: seq<word>): (s: seq<byte>)
    ensures |s| == 4 * |ws|
  {
    if ws == [] then [] else ToWord(ws[0]) + Concat(ws[1..])
  }

  lemma FromLEOfBytes(w: word)
    ensures FromLE(ByteOf(w, 0), ByteOf(w, 1), ByteOf(w, 2), ByteOf(w, 3)) == w
  {
    FromLEValue(ByteOf(w, 0), ByteOf(w, 1), ByteOf(w, 2), ByteOf(w, 3));
    var w1 := w / 256;
    var w2 := w1 / 256;
    assert w == 256 * w1 + w % 256;
    assert w1 == 256 * w2 + w1 % 256;
    assert w2 == 256 * (w2 / 256) + w2 % 256;
  }

  lemma BytesOfFromLE(b0: byte, b1: byte, b2: byte, b3: byte)
    ensures ToWord(FromLE(b0, b1, b2, b3)) == [b0, b1, b2, b3]
  {
    FromLEValue(b0, b1, b2, b3);
    var w2: int := b2 as int + 256 * (b3 as int);
    var w1: int := b1 as int + 256 * w2;
    var w: int := b0 as int + 256 * w1;
    assert w / 256 == w1 && w % 256 == b0;
    assert w1 / 256 == w2 && w1 % 256 == b1;
    assert w2 / 256 == b3 && w2 % 256 == b2;
  }

  /** Fewer than four bytes decode to what they are worth. */
  lemma FromBytesShort(s: seq<byte>)
    requires |s| < 4
    ensures FromBytes(s) == (if |s| > 0 then s[0] as int else 0) + 0x100 * (if |s| > 1 then s[1] as int else 0)
                            + 0x1_0000 * (if |s| > 2 then s[2] as int else 0)
  {
    if |s| == 0 {
    } else if |s| == 1 {
      assert FromBytes(s[1..]) == 0;
    } else if |s| == 2 {
      assert s[1..][1..] == [];
      assert FromBytes(s[1..]) == s[1] as int + 256 * FromBytes([]);
    } else {
      assert s[1..][1..] == s[2..] && s[2..][1..] == [];
      assert FromBytes(s[2..]) == s[2] as int + 256 * FromBytes([]);
      assert FromBytes(s[1..]) == s[1] as int + 256 * FromBytes(s[2..]);
    }
  }

  lemma FromBytesOfFour(s: seq<byte>)
    requires |s| == 4
    ensures FromBytes(s) == FromLE(s[0], s[1], s[2], s[3])
  {
    assert s == [s[0], s[1], s[2], s[3]];
  }

  /** The encoding is the word's value to the base 256, the lowest digit first. */
  lemma WordDigits(w: word)
    ensures w as int == ByteOf(w, 0) as int + 0x100 * (ByteOf(w, 1) as int) + 0x1_0000 * (ByteOf(w, 2) as int)
                        + 0x100_0000 * (ByteOf(w, 3) as int)
    ensures ToWord(w) == [ByteOf(w, 0), ByteOf(w, 1), ByteOf(w, 2), ByteOf(w, 3)]
  {
    FromLEOfBytes(w);
    FromLEValue(ByteOf(w, 0), ByteOf(w, 1), ByteOf(w, 2), ByteOf(w, 3));
  }

  /** Four encoded bytes are the digits of the word to the base 256, the lowest first; decoding
      gives the word back, and encoding is injective. */
  lemma WordRoundTrip(w: word, v: word)
    ensures FromBytes(ToWord(w)) == w
    ensures w as int == ToWord(w)[0] as int + 0x100 * (ToWord(w)[1] as int) + 0x1_0000 * (ToWord(w)[2] as int)
                        + 0x100_0000 * (ToWord(w)[3] as int)
    ensures ToWord(w) == ToWord(v) ==> w == v
  {
    WordDigits(w);
    FromBytesOfFour(ToWord(w));
    FromLEOfBytes(w);
    FromBytesOfFour(ToWord(v));
    FromLEOfBytes(v);
  }

  lemma {:induction false} ConcatAt(ws: seq<word>, i: nat)
    requires i < |ws|
    ensures Concat(ws)[4 * i..4 * i + 4] == ToWord(ws[i])
  {
    if i == 0 {
    } else {
      ConcatAt(ws[1..], i - 1);
      assert Concat(ws)[4 * i..4 * i + 4] == Concat(ws[1..])[4 * (i - 1)..4 * (i - 1) + 4];
    }
  }

  /** A slice of four encoded bytes decodes to the word. */
  lemma WordInSlice(s: seq<byte>, at: nat, w: word)
    requires at + 4 <= |s| && s[at..at + 4] == ToWord(w)
    ensures WordOf(s, at) == w
  {
    WordDigits(w);
    WordOfValue(s, at);
    hide ByteOf, ToWord;
    var t := s[at..at + 4];
    assert t[0] == s[at] && t[1] == s[at + 1] && t[2] == s[at + 2] && t[3] == s[at + 3];
  }

  lemma {:induction false} ConcatAppend(ws: seq<word>, w: word)
    ensures Concat(ws + [w]) == Concat(ws) + ToWord(w)
  {
    if ws == [] {
      assert [w][1..] == [];
      assert Concat([]) == [];
      assert ws + [w] == [w];
      assert ToWord(w) + Concat([]) == ToWord(w);
    } else {
      assert (ws + [w])[1..] == ws[1..] + [w];
      ConcatAppend(ws[1..], w);
    }
  }
}
