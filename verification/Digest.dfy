/**
 Iterated hashing: a compression function folded over 64-byte blocks, and the
 padding both hash functions share but for the order of the length bytes.
 */
module Digest {
  import opened Bytes

  const BLOCK: nat := 64
  const WORD_SIZE: int := 0x1_0000_0000

  type Word = w: int | 0 <= w < 0x1_0000_0000

  /** The compression function over the whole blocks of m; an unfinished last block does not count. */
  function Fold<S>(transform: (S, seq<Byte>) -> S, h: S, m: seq<Byte>): S
    decreases |m|
  {
    if |m| < BLOCK then h else Fold(transform, transform(h, m[..BLOCK]), m[BLOCK..])
  }

  lemma {:induction false} FoldAppend<S>(transform: (S, seq<Byte>) -> S, h: S, a: seq<Byte>, b: seq<Byte>)
    requires |a| % BLOCK == 0
    ensures Fold(transform, h, a + b) == Fold(transform, Fold(transform, h, a), b)
    decreases |a|
  {
    if a == [] {
      assert a + b == b;
    } else {
      assert (a + b)[..BLOCK] == a[..BLOCK] && (a + b)[BLOCK..] == a[BLOCK..] + b;
      FoldAppend(transform, transform(h, a[..BLOCK]), a[BLOCK..], b);
    }
  }

  lemma FoldBlock<S>(transform: (S, seq<Byte>) -> S, h: S, a: seq<Byte>, block: seq<Byte>)
    requires |a| % BLOCK == 0 && |block| == BLOCK
    ensures Fold(transform, h, a + block) == transform(Fold(transform, h, a), block)
  {
    FoldAppend(transform, h, a, block);
    assert block[..BLOCK] == block && block[BLOCK..] == [];
  }

  function Pow256(k: nat): nat {
    if k == 0 then 1 else 256 * Pow256(k - 1)
  }

  lemma Pow256Positive(k: nat)
    ensures Pow256(k) > 0
  {}

  /** The byte of weight 256^k of a word. */
  function ByteOf(w: Word, k: nat): Byte {
    Pow256Positive(k);
    w / Pow256(k) % 256
  }

  function BigEndian(w: Word): (r: seq<Byte>)
    ensures |r| == 4
  {
    [ByteOf(w, 3), ByteOf(w, 2), ByteOf(w, 1), ByteOf(w, 0)]
  }

  function LittleEndian(w: Word): (r: seq<Byte>)
    ensures |r| == 4
  {
    [ByteOf(w, 0), ByteOf(w, 1), ByteOf(w, 2), ByteOf(w, 3)]
  }

  /** The bytes of a word determine it. */
  lemma WordOfBytes(w: Word)
    ensures var b := BigEndian(w); w == ((b[0] as int * 256 + b[1]) * 256 + b[2]) * 256 + b[3]
    ensures var b := LittleEndian(w); w == ((b[3] as int * 256 + b[2]) * 256 + b[1]) * 256 + b[0]
  {
    assert Pow256(0) == 1 && Pow256(1) == 256 && Pow256(2) == 65536;
    assert Pow256(3) == 256 * Pow256(2);
    hide Pow256;
    var q1, q2, q3 := w / 256, w / 65536, w / 0x100_0000;
    assert w == q1 * 256 + w % 256 && q1 == q2 * 256 + q1 % 256 && q2 == q3 * 256 + q2 % 256 && q3 % 256 == q3;
  }

  /** The zeros between the end mark and the length: as few as fill the block up to its last eight bytes. */
  function Zeros(n: nat): (k: nat)
    ensures k < BLOCK && (n + 1 + k) % BLOCK == 56
  {
    (119 - n % BLOCK) % BLOCK
  }

  lemma ZerosEnough(n: nat, k: nat)
    requires k <= Zeros(n)
    ensures (n + 1 + k) % BLOCK == 56 <==> k == Zeros(n)
  {}

  function Padded(m: seq<Byte>, length: seq<Byte>): (r: seq<Byte>)
    requires |length| == 8
    ensures |r| % BLOCK == 0
  {
    m + [0x80] + Fill(0, Zeros(|m|)) + length
  }

  /** The number of bits of the message, modulo 2^64 as both standards have it. */
  function BitLength(n: nat): (r: (int, int))
    ensures 0 <= r.0 < WORD_SIZE && 0 <= r.1 < WORD_SIZE
  {
    (8 * n / WORD_SIZE % WORD_SIZE, 8 * n % WORD_SIZE)
  }

  /** A number from its bytes, most significant first. */
  function HighFirst(b: seq<Byte>): nat {
    if b == [] then 0 else HighFirst(b[..|b| - 1]) * 256 + b[|b| - 1]
  }

  /** A number from its bytes, least significant first. */
  function LowFirst(b: seq<Byte>): nat {
    if b == [] then 0 else b[0] + 256 * LowFirst(b[1..])
  }

  lemma HighFour(a: nat, b: seq<Byte>, c: seq<Byte>)
    requires |b| == 4 && a == HighFirst(c)
    ensures HighFirst(c + b) == (((a * 256 + b[0]) * 256 + b[1]) * 256 + b[2]) * 256 + b[3]
  {
    var s := c + b;
    assert s[..|s| - 1] == c + b[..3] && (c + b[..3])[..|c| + 2] == c + b[..2];
    assert (c + b[..2])[..|c| + 1] == c + b[..1] && (c + b[..1])[..|c|] == c;
    assert HighFirst(c + b[..1]) == a * 256 + b[0];
    assert HighFirst(c + b[..2]) == (a * 256 + b[0]) * 256 + b[1];
    assert HighFirst(c + b[..3]) == ((a * 256 + b[0]) * 256 + b[1]) * 256 + b[2];
  }

  lemma LowFour(b: seq<Byte>, c: seq<Byte>)
    requires |b| == 4
    ensures LowFirst(b + c) ==
              b[0] as int + 256 * (b[1] as int + 256 * (b[2] as int + 256 * (b[3] as int + 256 * LowFirst(c))))
  {
    var s := b + c;
    assert s[1..] == b[1..] + c && (b[1..] + c)[1..] == b[2..] + c;
    assert (b[2..] + c)[1..] == b[3..] + c && (b[3..] + c)[1..] == c;
    assert LowFirst(b[3..] + c) == b[3] as int + 256 * LowFirst(c);
    assert LowFirst(b[2..] + c) == b[2] as int + 256 * LowFirst(b[3..] + c);
    assert LowFirst(b[1..] + c) == b[1] as int + 256 * LowFirst(b[2..] + c);
  }

  /** The two length words say the number of bits, read in either order. */
  lemma LengthReads(n: nat)
    requires 8 * n < WORD_SIZE * WORD_SIZE
    ensures var (hi, lo) := BitLength(n);
            HighFirst(BigEndian(hi) + BigEndian(lo)) == 8 * n == LowFirst(LittleEndian(lo) + LittleEndian(hi))
  {
    hide BigEndian, LittleEndian, HighFirst, LowFirst, BitLength;
    var (hi, lo) := BitLength(n);
    LengthIs(n);
    WordOfBytes(hi);
    WordOfBytes(lo);
    NoBytes();
    HighFour(0, BigEndian(hi), []);
    assert [] + BigEndian(hi) == BigEndian(hi);
    HighFour(hi, BigEndian(lo), BigEndian(hi));
    LowFour(LittleEndian(lo), LittleEndian(hi));
    LowFour(LittleEndian(hi), []);
    assert LittleEndian(hi) + [] == LittleEndian(hi);
  }

  lemma LengthIs(n: nat)
    requires 8 * n < WORD_SIZE * WORD_SIZE
    ensures var (hi, lo) := BitLength(n); 8 * n == hi * WORD_SIZE + lo
  {}

  lemma NoBytes()
    ensures HighFirst([]) == 0 == LowFirst([])
  {}

  /** The padded message is the message, a one bit, the fewest zeros that fill a block, and the length. */
  lemma PaddedReads(m: seq<Byte>, length: seq<Byte>)
    requires |length| == 8
    ensures var p := Padded(m, length);
            && |p| % BLOCK == 0 && |m| + 9 <= |p| < |m| + 9 + BLOCK
            && p[..|m|] == m && p[|m|] / 128 == 1 && p[|m|] % 128 == 0
            && (forall i :: |m| < i < |p| - 8 ==> p[i] == 0) && p[|p| - 8..] == length
  {}
}
