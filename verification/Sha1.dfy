/**
 SHA-1 fed in pieces, and the keyed hash built on it. The compression function
 is a parameter: nothing here depends on what it computes.
 */
module Sha1 {
  import opened Bytes
  import opened Digest

  type State = s: seq<Word> | |s| == 5 witness [0, 0, 0, 0, 0]

  type Transform = (State, seq<Byte>) -> State

  const INIT: State := [0x67452301, 0xefcdab89, 0x98badcfe, 0x10325476, 0xc3d2e1f0]

  const DIGEST_LENGTH: nat := 20

  /** The state words, most significant byte first. */
  function StateBytes(s: State): (r: seq<Byte>)
    ensures |r| == DIGEST_LENGTH
  {
    BigEndian(s[0]) + BigEndian(s[1]) + BigEndian(s[2]) + BigEndian(s[3]) + BigEndian(s[4])
  }

  /** The hash of a whole message, FIPS 180-1 section 4. */
  function Hash(transform: Transform, m: seq<Byte>): (r: seq<Byte>)
    ensures |r| == DIGEST_LENGTH
  {
    var (hi, lo) := BitLength(|m|);
    StateBytes(Fold(transform, INIT, Padded(m, BigEndian(hi) + BigEndian(lo))))
  }

  /** Section 4: the last eight bytes of the padded message are its number of bits, most significant byte first. */
  lemma PaddingSays(m: seq<Byte>)
    requires 8 * |m| < WORD_SIZE * WORD_SIZE
    ensures var (hi, lo) := BitLength(|m|);
            var p := Padded(m, BigEndian(hi) + BigEndian(lo));
            HighFirst(p[|p| - 8..]) == 8 * |m| && p[..|m|] == m && p[|m|] == 0x80
  {
    hide HighFirst, BigEndian;
    var (hi, lo) := BitLength(|m|);
    PaddedReads(m, BigEndian(hi) + BigEndian(lo));
    LengthReads(|m|);
  }

  /** Section 7: the initial words, byte by byte, count up and down. */
  lemma InitCounts()
    ensures LittleEndian(INIT[0]) == [0x01, 0x23, 0x45, 0x67] && LittleEndian(INIT[1]) == [0x89, 0xab, 0xcd, 0xef]
    ensures LittleEndian(INIT[2]) == [0xfe, 0xdc, 0xba, 0x98] && LittleEndian(INIT[3]) == [0x76, 0x54, 0x32, 0x10]
    ensures LittleEndian(INIT[4]) == [0xf0, 0xe1, 0xd2, 0xc3]
  {
    assert Pow256(1) == 256 && Pow256(2) == 65536 && Pow256(3) == 0x100_0000;
  }

  /** Adding len bytes to the 64-bit count of n, with the carry taken out of the low word. */
  predicate CarryIsSeen(n: nat, len: nat) {
    len < 0x2000_0000 || 8 * n % WORD_SIZE + 8 * len % WORD_SIZE >= WORD_SIZE
  }

  /** The two counter lines of SHA1_Update on the words of a count. */
  function Counted(count1: Word, count0: Word, len: nat): (Word, Word) {
    var low := (count0 as int + 8 * len % WORD_SIZE) % WORD_SIZE;
    var high := if low < 8 * len then (count1 as int + 1) % WORD_SIZE else count1;
    ((high as int + len / 0x2000_0000) % WORD_SIZE, low)
  }

  lemma AddWords(a: int, b: int)
    requires a >= 0 && b >= 0
    ensures (a + b) / WORD_SIZE
         == a / WORD_SIZE + b / WORD_SIZE + (if a % WORD_SIZE + b % WORD_SIZE >= WORD_SIZE then 1 else 0)
    ensures (a + b) % WORD_SIZE
         == a % WORD_SIZE + b % WORD_SIZE - (if a % WORD_SIZE + b % WORD_SIZE >= WORD_SIZE then WORD_SIZE else 0)
  {}

  lemma WrapTwice(a: int, b: int, c: int)
    ensures ((a % WORD_SIZE + b) % WORD_SIZE + c) % WORD_SIZE == (a + b + c) % WORD_SIZE
  {}

  /** Off by less than a whole turn, two sums differ when one of them has the carry and the other not. */
  lemma OneApart(a: int, x: int, y: int)
    requires 0 <= x <= 1 && 0 <= y <= 1
    ensures (a + x) % WORD_SIZE == (a + y) % WORD_SIZE <==> x == y
  {}

  /** The high word, with a carry of x where y is due. */
  lemma HighWord(a: nat, b: nat, x: nat, y: nat)
    requires x <= 1 && y == if a % WORD_SIZE + b % WORD_SIZE >= WORD_SIZE then 1 else 0
    ensures ((a / WORD_SIZE % WORD_SIZE + x) % WORD_SIZE + b / WORD_SIZE) % WORD_SIZE == (a + b) / WORD_SIZE % WORD_SIZE
            <==> x == y
  {
    AddWords(a, b);
    WrapTwice(a / WORD_SIZE, x, b / WORD_SIZE);
    OneApart(a / WORD_SIZE + b / WORD_SIZE, x, y);
  }

  /** The count of a message grown by len bytes: the low word always, the high one when the carry is seen. */
  lemma CountGrows(n: nat, len: nat, count1: Word)
    ensures var (hi, lo) := BitLength(n);
            var (hi1, lo1) := Counted(count1, lo, len);
            && lo1 == BitLength(n + len).1
            && (count1 == hi ==> (hi1 == BitLength(n + len).0 <==> CarryIsSeen(n, len)))
  {
    var a, b := 8 * n, 8 * len;
    AddWords(a, b);
    Carries(a, b, len);
    var low := (a % WORD_SIZE + b % WORD_SIZE) % WORD_SIZE;
    assert low == (a + b) % WORD_SIZE;
    var x, y := if low < b then 1 else 0, if a % WORD_SIZE + b % WORD_SIZE >= WORD_SIZE then 1 else 0;
    HighWord(a, b, x, y);
    assert b / WORD_SIZE == len / 0x2000_0000;
    assert Counted(BitLength(n).0, BitLength(n).1, len).0
        == ((a / WORD_SIZE % WORD_SIZE + x) % WORD_SIZE + len / 0x2000_0000) % WORD_SIZE;
  }

  /** The code sees a carry in every long piece, and in a short one when there is one. */
  lemma Carries(a: nat, b: nat, len: nat)
    requires b == 8 * len
    ensures var low := (a + b) % WORD_SIZE;
            && (len < 0x2000_0000 ==> (low < b <==> a % WORD_SIZE + b % WORD_SIZE >= WORD_SIZE))
            && (len >= 0x2000_0000 ==> low < b)
  {
    AddWords(a, b);
  }

  class Context {
    const transform: Transform
    const buffer: array<Byte>
    var state: State
    var count0: Word
    var count1: Word
    /** Everything hashed so far. */
    ghost var msg: seq<Byte>

    /** The state holds the whole blocks, the buffer the rest, and the low word the bits. */
    ghost predicate Valid()
      reads this, buffer
    {
      var n := |msg|;
      && buffer.Length == BLOCK && count0 == BitLength(n).1
      && state == Fold(transform, INIT, msg[..n - n % BLOCK]) && buffer[..n % BLOCK] == msg[n - n % BLOCK..]
    }

    /** The high word of the count is right too. */
    ghost predicate Exact()
      reads this
    {
      count1 == BitLength(|msg|).0
    }

    constructor (transform: Transform)
      ensures Valid() && Exact() && msg == [] && fresh(buffer) && this.transform == transform
    {
      this.transform := transform;
      buffer := new Byte[BLOCK];
      state, count0, count1, msg := INIT, 0, 0, [];
    }

    /** Complete the block under way and compress every whole block that follows it; i bytes are used. */
    method CompressBlocks(j: nat, data: seq<Byte>, ghost before: seq<Byte>) returns (i: nat)
      requires buffer.Length == BLOCK && j < BLOCK && j + |data| >= BLOCK
      requires |before| % BLOCK == 0 && state == Fold(transform, INIT, before)
      modifies this`state, buffer
      ensures i <= |data| < i + BLOCK && (|before| + j + i) % BLOCK == 0
      ensures state == Fold(transform, INIT, before + old(buffer[..])[..j] + data[..i])
    {
      hide Fold;
      i := BLOCK - j;
      ghost var was := buffer[..];
      Memcpy(buffer, j, data[..i]);
      SplicePrefix(was, j, data[..i]);
      FoldBlock(transform, INIT, before, buffer[..]);
      state := transform(state, buffer[..]);
      ghost var known := before + was[..j];
      assert buffer[..] == was[..j] + data[..i];
      assert before + buffer[..] == known + data[..i];
      while i + 63 < |data|
        invariant BLOCK - j <= i <= |data| && (|known| + i) % BLOCK == 0
        invariant state == Fold(transform, INIT, known + data[..i])
      {
        FoldBlock(transform, INIT, known + data[..i], data[i..i + 64]);
        state := transform(state, data[i..i + 64]);
        assert known + data[..i] + data[i..i + 64] == known + data[..i + 64];
        i := i + 64;
      }
    }

    /** The last memcpy of SHA1_Update: what is left of the data goes behind the j buffered bytes. */
    method StoreRest(j: nat, rest: seq<Byte>, ghost before: seq<Byte>)
      requires buffer.Length == BLOCK && j + |rest| < BLOCK && |before| % BLOCK == 0
      requires state == Fold(transform, INIT, before) && count0 == BitLength(|before| + j + |rest|).1
      modifies this`msg, buffer
      ensures Valid() && msg == before + old(buffer[..])[..j] + rest
    {
      hide Fold, BitLength;
      ghost var was := buffer[..];
      Memcpy(buffer, j, rest);
      SplicePrefix(was, j, rest);
      Ends(before, was[..j] + rest);
      msg := before + (was[..j] + rest);
      assert msg == before + was[..j] + rest;
    }

    /** SHA1_Update: the message grows by the data; the count stays right exactly when the carry is seen. */
    method Update(data: seq<Byte>)
      requires Valid()
      modifies this`state, this`count0, this`count1, this`msg, buffer
      ensures Valid() && msg == old(msg) + data
      ensures old(Exact()) ==> (Exact() <==> CarryIsSeen(old(|msg|), |data|))
    {
      hide Fold, CarryIsSeen, Counted, BitLength;
      BufferPlace(|msg|);
      CountGrows(|msg|, |data|, count1);
      var j, i := count0 / 8 % 64, 0;
      var words := Counted(count1, count0, |data|);
      count1, count0 := words.0, words.1;
      ghost var before, tail := msg[..|msg| - j], buffer[..j];
      assert msg == before + tail;
      if j + |data| > 63 {
        i := CompressBlocks(j, data, before);
        j := 0;
        before, tail := before + tail + data[..i], [];
      }
      assert msg + data == before + tail + data[i..];
      StoreRest(j, data[i..], before);
    }

    lemma WholeTurns(q: nat, x: nat)
      requires x < WORD_SIZE
      ensures (q * WORD_SIZE + x) % WORD_SIZE == x
    {}

    lemma WholeBlocks(q: nat, r: nat)
      ensures (q * 0x2000_0000 + r) % 64 == r % 64 && 8 * r / 8 == r
    {
      assert q * 0x2000_0000 + r == 64 * (q * 0x80_0000) + r;
    }

    lemma BufferPlace(n: nat)
      ensures BitLength(n).1 / 8 % 64 == n % BLOCK
    {
      var q, r := n / 0x2000_0000, n % 0x2000_0000;
      assert 8 * n == q * WORD_SIZE + 8 * r && 0 <= 8 * r < WORD_SIZE;
      WholeTurns(q, 8 * r);
      WholeBlocks(q, r);
      assert n == q * 0x2000_0000 + r;
    }

    lemma Ends(a: seq<Byte>, b: seq<Byte>)
      requires |a| % BLOCK == 0 && |b| < BLOCK
      ensures var m := a + b; m[..|m| - |m| % BLOCK] == a && m[|m| - |m| % BLOCK..] == b && |m| % BLOCK == |b|
    {}

    /** The loop of SHA1_Final: zeros up to the last eight bytes of a block. */
    method PadZeros(ghost m: seq<Byte>)
      requires Valid() && msg == m + [0x80]
      modifies this`state, this`count0, this`count1, this`msg, buffer
      ensures Valid() && msg == m + [0x80] + Fill(0, Zeros(|m|))
    {
      hide Fold, CarryIsSeen, BitLength, Counted, Zeros;
      ghost var k := 0;
      ZerosEnough(|m|, 0);
      BufferPlace(|msg|);
      assert [0x80] + Fill(0, 0) == [0x80];
      while count0 / 8 % 64 != 56
        invariant Valid() && 0 <= k <= Zeros(|m|) && msg == m + [0x80] + Fill(0, k)
        invariant count0 / 8 % 64 == 56 <==> k == Zeros(|m|)
        decreases Zeros(|m|) - k
      {
        Update([0]);
        OneZero(m + [0x80], k);
        BufferPlace(|msg|);
        k := k + 1;
        ZerosEnough(|m|, k);
      }
    }

    lemma OneZero(m: seq<Byte>, k: nat)
      ensures m + Fill(0, k) + [0] == m + Fill(0, k + 1)
    {}

    /** SHA1_Final: the end mark, the zeros and the count; then the state as bytes. */
    method Final() returns (digest: seq<Byte>)
      requires Valid()
      modifies this`state, this`count0, this`count1, this`msg, buffer
      ensures digest
           == StateBytes(Fold(transform, INIT, Padded(old(msg), BigEndian(old(count1)) + BigEndian(old(count0)))))
      ensures old(Exact()) ==> digest == Hash(transform, old(msg))
    {
      hide Fold, CarryIsSeen, BigEndian, StateBytes;
      ghost var m := msg;
      var finalcount := CountBytes();
      Update([0x80]);
      PadZeros(m);
      Update(finalcount);
      assert msg == Padded(m, finalcount);
      assert msg[..|msg|] == msg;
      digest := OutBytes();
    }

    /** The count, most significant byte of each word first. */
    method CountBytes() returns (finalcount: seq<Byte>)
      ensures finalcount == BigEndian(count1) + BigEndian(count0)
    {
      hide ByteOf;
      var bytes := new Byte[8];
      var i := 0;
      while i < 8
        invariant 0 <= i <= 8
        invariant forall p :: 0 <= p < i ==> bytes[p] == ByteOf(if p >= 4 then count0 else count1, 3 - p % 4)
      {
        bytes[i] := ByteOf(if i >= 4 then count0 else count1, 3 - i % 4);
        i := i + 1;
      }
      finalcount := bytes[..];
    }

    method OutBytes() returns (digest: seq<Byte>)
      ensures digest == StateBytes(state)
    {
      hide ByteOf;
      var bytes := new Byte[DIGEST_LENGTH];
      var i := 0;
      while i < DIGEST_LENGTH
        invariant 0 <= i <= DIGEST_LENGTH
        invariant forall p :: 0 <= p < i ==> bytes[p] == ByteOf(state[p / 4], 3 - p % 4)
      {
        bytes[i] := ByteOf(state[i / 4], 3 - i % 4);
        i := i + 1;
      }
      digest := bytes[..];
    }
  }

  // ---- hmac_sha1

  function Xor(a: Byte, b: Byte): Byte {
    ((a as bv8) ^ (b as bv8)) as int
  }

  lemma XorZero(b: Byte)
    requires b == 0x36 || b == 0x5c
    ensures Xor(0, b) == b
  {}

  function XorAll(s: seq<Byte>, b: Byte): (r: seq<Byte>)
    ensures |r| == |s|
  {
    seq(|s|, i requires 0 <= i < |s| => Xor(s[i], b))
  }

  /** A key made as long as a block: hashed if it is longer, then filled with zeros. */
  function BlockKey(transform: Transform, k: seq<Byte>): (r: seq<Byte>)
    ensures |r| == BLOCK
  {
    var short := if |k| > BLOCK then Hash(transform, k) else k;
    short + Fill(0, BLOCK - |short|)
  }

  /** The keyed hash of RFC 2104 section 2. */
  function Hmac(transform: Transform, k: seq<Byte>, d: seq<Byte>): seq<Byte> {
    var key := BlockKey(transform, k);
    Hash(transform, XorAll(key, 0x5c) + Hash(transform, XorAll(key, 0x36) + d))
  }

  /** The two loops that pad a key and mask it. */
  method MaskKey(buf: array<Byte>, k: seq<Byte>, mask: Byte)
    requires buf.Length == BLOCK && |k| <= BLOCK && (mask == 0x36 || mask == 0x5c)
    modifies buf
    ensures buf[..] == XorAll(k + Fill(0, BLOCK - |k|), mask)
  {
    hide Xor;
    XorZero(mask);
    var i := 0;
    while i < |k|
      invariant 0 <= i <= |k|
      invariant forall p :: 0 <= p < i ==> buf[p] == Xor(k[p], mask)
    {
      buf[i] := Xor(k[i], mask);
      i := i + 1;
    }
    while i < BLOCK
      invariant |k| <= i <= BLOCK
      invariant forall p :: 0 <= p < i ==> buf[p] == if p < |k| then Xor(k[p], mask) else mask
    {
      buf[i] := mask;
      i := i + 1;
    }
  }

  /** One of the two digests of hmac_sha1: the masked key, then the data. */
  method KeyedDigest(transform: Transform, k: seq<Byte>, mask: Byte, data: seq<Byte>) returns (digest: seq<Byte>)
    requires |k| <= BLOCK && (mask == 0x36 || mask == 0x5c)
    ensures |digest| == DIGEST_LENGTH
    ensures CarryIsSeen(BLOCK, |data|) ==> digest == Hash(transform, XorAll(k + Fill(0, BLOCK - |k|), mask) + data)
  {
    hide Hash, XorAll, CarryIsSeen;
    var ctx := new Context(transform);
    var buf := new Byte[BLOCK];
    MaskKey(buf, k, mask);
    BlockFits();
    ctx.Update(buf[..]);
    ctx.Update(data);
    assert [] + buf[..] + data == buf[..] + data;
    digest := ctx.Final();
  }

  lemma BlockFits()
    ensures CarryIsSeen(0, BLOCK) && CarryIsSeen(BLOCK, DIGEST_LENGTH)
  {}

  /** Key and data whose lengths SHA1_Update counts right: all below 2^29 bytes. */
  predicate Counts(key: nat, d: nat) {
    CarryIsSeen(0, key) && CarryIsSeen(BLOCK, d)
  }

  /** hmac_sha1: a buffer shorter than a digest is refused after all the work; the -1 is a size_t in the source. */
  method HmacSha1(transform: Transform, key: seq<Byte>, d: seq<Byte>, out: array<Byte>, t: nat) returns (r: int)
    requires t <= out.Length
    modifies out
    ensures t < DIGEST_LENGTH ==> r == -1 && out[..] == old(out[..])
    ensures t >= DIGEST_LENGTH ==> r == DIGEST_LENGTH && out[DIGEST_LENGTH..] == old(out[..])[DIGEST_LENGTH..]
    ensures t >= DIGEST_LENGTH && Counts(|key|, |d|) ==> out[..DIGEST_LENGTH] == Hmac(transform, key, d)
  {
    hide Hash, XorAll, CarryIsSeen;
    var k := key;
    if |key| > BLOCK {
      var tctx := new Context(transform);
      tctx.Update(key);
      assert [] + key == key;
      k := tctx.Final();
    }
    var isha := KeyedDigest(transform, k, 0x36, d);
    BlockFits();
    var osha := KeyedDigest(transform, k, 0x5c, isha);
    if t < DIGEST_LENGTH {
      return -1;
    }
    ghost var was := out[..];
    Memcpy(out, 0, osha);
    SplicePrefix(was, 0, osha);
    r := DIGEST_LENGTH;
  }

  lemma SmallPiece(n: nat, len: nat)
    requires len < 0x2000_0000
    ensures CarryIsSeen(n, len)
  {}

  lemma NoPieces(pieces: seq<seq<Byte>>)
    ensures Flatten(pieces[..0]) == []
  {}

  /** Any split of a message into pieces whose carries are seen hashes like the message in one piece. */
  method HashPieces(transform: Transform, pieces: seq<seq<Byte>>) returns (digest: seq<Byte>)
    requires forall p <- pieces :: |p| < 0x2000_0000
    ensures digest == Hash(transform, Flatten(pieces))
  {
    hide Hash, Flatten, CarryIsSeen, Context.Valid;
    var ctx := new Context(transform);
    NoPieces(pieces);
    var i := 0;
    while i < |pieces|
      invariant 0 <= i <= |pieces| && fresh(ctx) && fresh(ctx.buffer) && ctx.transform == transform
      invariant ctx.Valid() && ctx.Exact() && ctx.msg == Flatten(pieces[..i])
    {
      SmallPiece(|ctx.msg|, |pieces[i]|);
      ctx.Update(pieces[i]);
      assert pieces[..i + 1] == pieces[..i] + [pieces[i]];
      FlattenAppend(pieces[..i], [pieces[i]]);
      FlattenSingle(pieces[i]);
      i := i + 1;
    }
    assert pieces[..i] == pieces;
    digest := ctx.Final();
  }
}
