/** The 32-bit address space as a value: 2^32 bytes, words read and written little-endian. */
module Memories {
  import opened Words

  type Memory = m: seq<byte> | |m| == SPACE witness seq(SPACE, _ => 0)

  function WordAt(m: Memory, a: word): word {
    if a + 4 <= SPACE then FromLE(m[a], m[a + 1], m[a + 2], m[a + 3])
    else FromLE(m[a], m[Add(a, 1)], m[Add(a, 2)], m[Add(a, 3)])
  }

  /** Four bytes from a on, the lowest first, the addresses wrapping round. */
  lemma WordAtValue(m: Memory, a: word)
    ensures WordAt(m, a) as int == m[a] as int + 0x100 * (m[(a + 1) % SPACE] as int)
                                   + 0x1_0000 * (m[(a + 2) % SPACE] as int) + 0x100_0000 * (m[(a + 3) % SPACE] as int)
  {
    var b1, b2, b3 := m[(a + 1) % SPACE], m[(a + 2) % SPACE], m[(a + 3) % SPACE];
    assert WordAt(m, a) == FromLE(m[a], b1, b2, b3);
    FromLEValue(m[a], b1, b2, b3);
  }

  /** Word number j from address a on, all of it wrapping round. */
  function WordBehind(m: Memory, a: nat, j: nat): word {
    WordAt(m, (a + 4 * j) % SPACE)
  }

  function WithWord(m: Memory, a: word, w: word): Memory {
    if a + 4 <= SPACE then m[..a] + ToWord(w) + m[a + 4..]
    else m[a := ByteOf(w, 0)][Add(a, 1) := ByteOf(w, 1)][Add(a, 2) := ByteOf(w, 2)][Add(a, 3) := ByteOf(w, 3)]
  }

  /** m with the bytes s placed at address a. */
  function Splice(m: Memory, a: nat, s: seq<byte>): (r: Memory)
    requires a + |s| <= SPACE
    ensures forall x: word :: r[x] == if a <= x < a + |s| then s[x - a] else m[x]
  {
    m[..a] + s + m[a + |s|..]
  }

  /** m with k bytes at src copied to dest. */
  function Copied(m: Memory, dest: nat, src: nat, k: nat): Memory
    requires dest + k <= SPACE && src + k <= SPACE
  {
    Splice(m, dest, m[src..src + k])
  }

  function Repeat(value: byte, n: nat): (s: seq<byte>)
    ensures |s| == n && forall i :: 0 <= i < n ==> s[i] == value
  {
    seq(n, _ => value)
  }

  function Zeros(n: nat): (s: seq<byte>)
    ensures |s| == n && forall i :: 0 <= i < n ==> s[i] == 0
  {
    Repeat(0, n)
  }

  function WordsAt(m: Memory, a: nat, n: nat): (ws: seq<word>)
    requires a + 4 * n <= SPACE
    ensures |ws| == n && forall i :: 0 <= i < n ==> ws[i] == WordAt(m, a + 4 * i)
  {
    seq(n, i requires 0 <= i < n => WordAt(m, a + 4 * i))
  }

  /** The memories agree on every address outside [lo, hi). */
  ghost predicate SameOutside(m: Memory, m': Memory, lo: int, hi: int) {
    forall x: word :: x < lo || hi <= x ==> m'[x] == m[x]
  }

  /** The ranges [a, a + n) and [b, b + k) have no address in common. */
  predicate Apart(a: int, n: int, b: int, k: int) {
    a + n <= b || b + k <= a
  }

  lemma SameOutsideWider(m: Memory, m': Memory, lo: int, hi: int, lo': int, hi': int)
    requires SameOutside(m, m', lo, hi) && lo' <= lo && hi <= hi'
    ensures SameOutside(m, m', lo', hi')
  {
  }

  lemma WithWordBytes(m: Memory, a: word, w: word, x: word)
    ensures a + 4 <= SPACE && a <= x < a + 4 ==> WithWord(m, a, w)[x] == ByteOf(w, x - a)
    ensures a + 4 <= SPACE && !(a <= x < a + 4) ==> WithWord(m, a, w)[x] == m[x]
  {
  }

  lemma WithWordSame(m: Memory, a: word, w: word, lo: int, hi: int)
    requires lo <= a && a + 4 <= hi && a + 4 <= SPACE
    ensures SameOutside(m, WithWord(m, a, w), lo, hi)
  {
  }

  lemma ReadBack(m: Memory, a: word, w: word)
    requires a + 4 <= SPACE
    ensures WordAt(WithWord(m, a, w), a) == w
  {
    FromLEOfBytes(w);
  }

  lemma ReadOther(m: Memory, a: word, w: word, b: word)
    requires a + 4 <= SPACE && b + 4 <= SPACE && Apart(a, 4, b, 4)
    ensures WordAt(WithWord(m, a, w), b) == WordAt(m, b)
  {
  }

  lemma WordAtSame(m: Memory, m': Memory, lo: int, hi: int, a: word)
    requires SameOutside(m, m', lo, hi)
    requires a + 4 <= SPACE && Apart(a, 4, lo, hi - lo)
    ensures WordAt(m', a) == WordAt(m, a)
  {
  }

  /** A word is what its four bytes are. */
  lemma WordFromBytes(m: Memory, a: word, w: word)
    requires a + 4 <= SPACE
    ensures WordAt(m, a) == w <==> forall d: nat :: d < 4 ==> m[a + d] == ByteOf(w, d)
  {
    FromLEOfBytes(w);
    BytesOfFromLE(m[a], m[a + 1], m[a + 2], m[a + 3]);
    var r := WordAt(m, a);
    assert ToWord(r) == [m[a], m[a + 1], m[a + 2], m[a + 3]];
    assert ToWord(r)[0] == m[a] && ToWord(r)[1] == m[a + 1] && ToWord(r)[2] == m[a + 2] && ToWord(r)[3] == m[a + 3];
    if forall d: nat :: d < 4 ==> m[a + d] == ByteOf(w, d) {
      assert m[a + 0] == ByteOf(w, 0) && m[a + 1] == ByteOf(w, 1);
      assert m[a + 2] == ByteOf(w, 2) && m[a + 3] == ByteOf(w, 3);
    }
  }

  /** Where an upward byte scan from a stops: the first nonzero byte, the addresses
      wrapping round. `stop` is some address holding a nonzero byte. */
  function SkipZeros(m: Memory, a: word, stop: word): (r: word)
    requires m[stop] != 0
    ensures m[r] != 0
    decreases Sub(stop, a)
  {
    if m[a] != 0 then a else SkipZeros(m, Add(a, 1), stop)
  }

  /** The byte j addresses behind a, wrapping round. */
  function ByteBehind(m: Memory, a: word, j: nat): (r: byte)
    ensures r == m[(a + j) % SPACE]
  {
    m[(a + j) % SPACE]
  }

  lemma BehindNext(m: Memory, a: word, j: nat)
    ensures ByteBehind(m, Add(a, 1), j) == ByteBehind(m, a, j + 1) && (Add(a, 1) + j) % SPACE == (a + (j + 1)) % SPACE
  {
    WrapAgain(a + 1, j);
  }

  /** The scan stops after the k zero bytes that it meets. */
  lemma {:induction false} SkipZerosIs(m: Memory, a: word, stop: word, k: nat)
    requires m[stop] != 0 && ByteBehind(m, a, k) != 0
    requires forall j: nat :: j < k ==> ByteBehind(m, a, j) == 0
    ensures SkipZeros(m, a, stop) == (a + k) % SPACE
    decreases k
  {
    assert ByteBehind(m, a, 0) == m[a];
    if k == 0 {
    } else {
      forall j: nat | j < k ensures ByteBehind(m, Add(a, 1), j) == ByteBehind(m, a, j + 1) {
        BehindNext(m, a, j);
      }
      BehindNext(m, a, k - 1);
      hide ByteBehind, Add;
      SkipZerosIs(m, Add(a, 1), stop, k - 1);
    }
  }

  /** It does stop, after some number of zero bytes. */
  lemma {:induction false} SkipZerosStops(m: Memory, a: word, stop: word) returns (k: nat)
    requires m[stop] != 0
    ensures SkipZeros(m, a, stop) == (a + k) % SPACE && ByteBehind(m, a, k) != 0
    ensures forall j: nat :: j < k ==> ByteBehind(m, a, j) == 0
    decreases Sub(stop, a)
  {
    assert ByteBehind(m, a, 0) == m[a];
    if m[a] != 0 {
      k := 0;
    } else {
      var l := SkipZerosStops(m, Add(a, 1), stop);
      k := l + 1;
      BehindNext(m, a, l);
      forall j: nat | j < k ensures ByteBehind(m, a, j) == 0 {
        if j == 0 {
        } else {
          BehindNext(m, a, j - 1);
        }
      }
    }
  }

  lemma WrapAdd(a: word, b: word)
    ensures Add(a, b) == (a + b) % SPACE && Sub(a, b) == (a - b) % SPACE
  {
  }

  lemma WrapAgain(x: nat, j: nat)
    ensures (x % SPACE + j) % SPACE == (x + j) % SPACE
  {
    var q, r := x / SPACE, x % SPACE;
    assert x + j == q * SPACE + (r + j);
    assert (q * SPACE + (r + j)) % SPACE == (r + j) % SPACE;
  }

  /** The first index from i on whose byte is not zero, or the length. */
  function FirstNonZero(f: seq<byte>, i: nat): (r: nat)
    requires i <= |f|
    ensures i <= r <= |f|
    ensures r < |f| ==> f[r] != 0
    ensures forall j :: i <= j < r ==> f[j] == 0
    decreases |f| - i
  {
    if i == |f| || f[i] != 0 then i else FirstNonZero(f, i + 1)
  }

  /** Scanning a file placed in memory stops at the file's own first nonzero byte. */
  lemma {:induction false} SkipInFile(m: Memory, b: nat, f: seq<byte>, i: nat, stop: nat)
    requires b + |f| <= SPACE && m[b..b + |f|] == f
    requires i <= stop < |f| && f[stop] != 0
    ensures FirstNonZero(f, i) <= stop
    ensures m[b + stop] != 0
    ensures SkipZeros(m, b + i, b + stop) == b + FirstNonZero(f, i)
    decreases stop - i
  {
    assert m[b + stop] == m[b..b + |f|][stop];
    assert m[b + i] == m[b..b + |f|][i];
    if f[i] != 0 {
    } else {
      SkipInFile(m, b, f, i + 1, stop);
    }
  }
}
