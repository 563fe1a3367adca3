/**
 MD5 fed in pieces. The compression function is a parameter: nothing here
 depends on what it computes.
 */
module Md5 {
  import opened Bytes
  import opened Digest

  type State = s: seq<Word> | |s| == 4 witness [0, 0, 0, 0]

  type Transform = (State, seq<Byte>) -> State

  const INIT: State := [0x67452301, 0xefcdab89, 0x98badcfe, 0x10325476]

  const DIGEST_LENGTH: nat := 16

  /** The state words, least significant byte first. */
  function StateBytes(s: State): (r: seq<Byte>)
    ensures |r| == DIGEST_LENGTH
  {
    LittleEndian(s[0]) + LittleEndian(s[1]) + LittleEndian(s[2]) + LittleEndian(s[3])
  }

  function LengthBytes(length: (int, int)): (r: seq<Byte>)
    requires 0 <= length.0 < WORD_SIZE && 0 <= length.1 < WORD_SIZE
    ensures |r| == 8
  {
    LittleEndian(length.1) + LittleEndian(length.0)
  }

  /** The hash of a whole message, RFC 1321 sections 3.1 to 3.5. */
  function Hash(transform: Transform, m: seq<Byte>): seq<Byte> {
    StateBytes(Fold(transform, INIT, Padded(m, LengthBytes(BitLength(|m|)))))
  }

  /** Section 3.2: the last eight bytes of the padded message are its number of bits, least significant byte first. */
  lemma PaddingSays(m: seq<Byte>)
    requires 8 * |m| < WORD_SIZE * WORD_SIZE
    ensures var p := Padded(m, LengthBytes(BitLength(|m|)));
            LowFirst(p[|p| - 8..]) == 8 * |m| && p[..|m|] == m && p[|m|] == 0x80
  {
    hide LowFirst, LittleEndian;
    PaddedReads(m, LengthBytes(BitLength(|m|)));
    LengthReads(|m|);
  }

  /** Section 3.3: the initial words, byte by byte, count up and down. */
  lemma InitCounts()
    ensures LittleEndian(INIT[0]) == [0x01, 0x23, 0x45, 0x67] && LittleEndian(INIT[1]) == [0x89, 0xab, 0xcd, 0xef]
    ensures LittleEndian(INIT[2]) == [0xfe, 0xdc, 0xba, 0x98] && LittleEndian(INIT[3]) == [0x76, 0x54, 0x32, 0x10]
  {
    assert Pow256(1) == 256 && Pow256(2) == 65536 && Pow256(3) == 0x100_0000;
  }

  /** The length md5_final computes from the 32-bit block count and the buffered bytes. */
  function LengthWords(nblocks: Word, count: nat): (int, int)
    requires count < BLOCK
  {
    var t := nblocks as int * 64 % WORD_SIZE;
    var lsb := (t + count) % WORD_SIZE;
    var msb := nblocks as int / 0x400_0000 + (if lsb < t then 1 else 0);
    (msb * 8 % WORD_SIZE + lsb / 0x2000_0000, lsb * 8 % WORD_SIZE)
  }

  /** The bytes a count of blocks in 32 bits and a rest can stand for. */
  const COUNTED: int := 0x40_0000_0000

  lemma Halves(n: nat)
    ensures var b, c, x := n / BLOCK % WORD_SIZE, n % BLOCK, n % COUNTED;
            && x == 64 * b + c && x / WORD_SIZE == b / 0x400_0000
            && x % WORD_SIZE == b * 64 % WORD_SIZE + c && b * 64 % WORD_SIZE % 64 == 0
  {
    var b, c, x := n / BLOCK % WORD_SIZE, n % BLOCK, n % COUNTED;
    assert x == 64 * b + c;
    var q, r := b / 0x400_0000, b % 0x400_0000;
    assert b * 64 == q * WORD_SIZE + r * 64;
    assert x == q * WORD_SIZE + (r * 64 + c);
  }

  lemma WordsOf(b: Word, c: nat, msb: nat, lsb: nat)
    requires c < BLOCK && b * 64 % WORD_SIZE + c == lsb < WORD_SIZE && msb == b / 0x400_0000
    ensures LengthWords(b, c) == (msb * 8 + lsb / 0x2000_0000, lsb * 8 % WORD_SIZE)
  {
    var t := b * 64 % WORD_SIZE;
    assert t + c == lsb && lsb % WORD_SIZE == lsb && !(lsb < t);
    assert 0 <= msb * 8 < WORD_SIZE;
    assert msb * 8 % WORD_SIZE == msb * 8;
  }

  /** The computed length is that of the message up to whole turns of the block count. */
  lemma LengthWordsAre(n: nat)
    ensures LengthWords(n / BLOCK % WORD_SIZE, n % BLOCK) == BitLength(n % COUNTED)
  {
    hide LengthWords;
    Halves(n);
    var x := n % COUNTED;
    Eight(x);
    WordsOf(n / BLOCK % WORD_SIZE, n % BLOCK, x / WORD_SIZE, x % WORD_SIZE);
  }

  lemma Eight(x: nat)
    requires x < COUNTED
    ensures 8 * x / WORD_SIZE == x / WORD_SIZE * 8 + x % WORD_SIZE / 0x2000_0000 < WORD_SIZE
    ensures 8 * x % WORD_SIZE == x % WORD_SIZE * 8 % WORD_SIZE
  {}

  /**
   The stored length is the true one exactly when the block count turned over a multiple of 2^23 times, as for every
   message under 2^38 bytes.
   */
  lemma LengthExactly(n: nat)
    ensures BitLength(n % COUNTED) == BitLength(n) <==> n / COUNTED % 0x80_0000 == 0
  {
    var x, k := n % COUNTED, n / COUNTED;
    assert 8 * n == 8 * x + k * 0x200 * WORD_SIZE;
    assert 8 * n % WORD_SIZE == 8 * x % WORD_SIZE;
    assert 8 * n / WORD_SIZE == 8 * x / WORD_SIZE + k * 0x200;
    var h := 8 * x / WORD_SIZE;
    assert 0 <= h < 0x200;
    Turns(h, k);
  }

  lemma Turns(h: nat, k: nat)
    requires h < 0x200
    ensures (h + k * 0x200) % WORD_SIZE == h % WORD_SIZE <==> k % 0x80_0000 == 0
  {
    var q, r := k / 0x80_0000, k % 0x80_0000;
    assert h + k * 0x200 == q * WORD_SIZE + (h + r * 0x200);
    assert h + r * 0x200 < WORD_SIZE;
    assert (h + k * 0x200) % WORD_SIZE == h + r * 0x200;
  }

  class Context {
    const transform: Transform
    const buf: array<Byte>
    var state: State
    var nblocks: Word
    var count: nat
    /** Everything hashed so far. */
    ghost var msg: seq<Byte>

    /** The state holds the flushed blocks, the buffer the rest: a full block may wait in it. */
    ghost predicate Valid()
      reads this, buf
    {
      && buf.Length == BLOCK && count <= BLOCK && count <= |msg| && (|msg| - count) % BLOCK == 0
      && state == Fold(transform, INIT, msg[..|msg| - count]) && buf[..count] == msg[|msg| - count..]
      && nblocks == (|msg| - count) / BLOCK % WORD_SIZE
    }

    constructor (transform: Transform)
      ensures Valid() && msg == [] && fresh(buf) && this.transform == transform
    {
      this.transform := transform;
      buf := new Byte[BLOCK];
      state, nblocks, count, msg := INIT, 0, 0, [];
    }

    lemma NextBlock(n: nat)
      requires n % BLOCK == 0
      ensures (n / BLOCK % WORD_SIZE + 1) % WORD_SIZE == (n + BLOCK) / BLOCK % WORD_SIZE
    {
      assert (n + BLOCK) / BLOCK == n / BLOCK + 1;
    }

    /** md5_write without input: compress a full buffer. */
    method Flush()
      requires Valid()
      modifies this`state, this`count, this`nblocks
      ensures Valid() && count < BLOCK && count == old(count) % BLOCK
    {
      hide Fold;
      if count == BLOCK {
        ghost var before := msg[..|msg| - BLOCK];
        FoldBlock(transform, INIT, before, buf[..]);
        assert before + buf[..] == msg && msg[..|msg|] == msg;
        NextBlock(|before|);
        state := transform(state, buf[..]);
        count := 0;
        nblocks := (nblocks + 1) % WORD_SIZE;
      }
    }

    /** hd->buf[hd->count++] = b */
    method PutByte(b: Byte)
      requires Valid() && count < BLOCK
      modifies this`count, this`msg, buf
      ensures Valid() && msg == old(msg) + [b] && count == old(count) + 1
    {
      hide Fold;
      ghost var was, before := buf[..], msg[..|msg| - count];
      buf[count] := b;
      assert buf[..count + 1] == was[..count] + [b];
      msg := msg + [b];
      count := count + 1;
      assert msg[..|msg| - count] == before;
    }

    /** The copying loops: bytes into the buffer until it is full or the input is used up. */
    method CopyIn(inbuf: seq<Byte>) returns (used: nat)
      requires Valid()
      modifies this`count, this`msg, buf
      ensures used == (if |inbuf| < BLOCK - old(count) then |inbuf| else BLOCK - old(count))
      ensures Valid() && msg == old(msg) + inbuf[..used] && count == old(count) + used
    {
      hide Fold;
      used := 0;
      while used < |inbuf| && count < BLOCK
        invariant 0 <= used <= |inbuf| && count == old(count) + used <= BLOCK
        invariant Valid() && msg == old(msg) + inbuf[..used]
      {
        PutByte(inbuf[used]);
        assert inbuf[..used] + [inbuf[used]] == inbuf[..used + 1];
        used := used + 1;
      }
    }

    /** A block of the input is compressed where it lies. */
    method WholeBlock(block: seq<Byte>)
      requires Valid() && count == 0 && |block| == BLOCK
      modifies this`state, this`nblocks, this`msg
      ensures Valid() && msg == old(msg) + block
    {
      hide Fold;
      assert msg[..|msg|] == msg;
      FoldBlock(transform, INIT, msg, block);
      NextBlock(|msg|);
      state := transform(state, block);
      nblocks := (nblocks + 1) % WORD_SIZE;
      msg := msg + block;
      assert msg[..|msg|] == msg;
    }

    /** The main loop of md5_write: whole blocks from i on. */
    method WholeBlocks(inbuf: seq<Byte>, start: nat, ghost before: seq<Byte>) returns (i: nat)
      requires Valid() && count == 0 && start <= |inbuf| && msg == before + inbuf[..start]
      modifies this`state, this`nblocks, this`msg
      ensures Valid() && start <= i <= |inbuf| < i + BLOCK && msg == before + inbuf[..i]
    {
      hide Fold;
      i := start;
      while |inbuf| - i >= 64
        invariant start <= i <= |inbuf| && Valid() && msg == before + inbuf[..i]
      {
        WholeBlock(inbuf[i..i + 64]);
        Longer(before, inbuf, i, i + 64);
        i := i + 64;
      }
    }

    lemma Longer(before: seq<Byte>, s: seq<Byte>, i: nat, j: nat)
      requires i <= j <= |s|
      ensures before + s[..i] + s[i..j] == before + s[..j]
    {}

    /** md5_write with input. */
    method Write(inbuf: seq<Byte>)
      requires Valid()
      modifies this`state, this`count, this`nblocks, this`msg, buf
      ensures Valid() && msg == old(msg) + inbuf
    {
      hide Fold;
      Flush();
      var i := 0;
      if count > 0 {
        i := CopyIn(inbuf);
        Flush();
        if i == |inbuf| {
          assert inbuf[..i] == inbuf;
          return;
        }
      }
      assert msg == old(msg) + inbuf[..i];
      i := WholeBlocks(inbuf, i, old(msg));
      var used := CopyIn(inbuf[i..]);
      assert inbuf[i..][..used] == inbuf[i..|inbuf|] && inbuf[..|inbuf|] == inbuf;
      Longer(old(msg), inbuf, i, |inbuf|);
    }

    method PadZeros(end: nat, ghost m: seq<Byte>, ghost k: nat) returns (ghost n: nat)
      requires Valid() && count <= end <= BLOCK && msg == m + Fill(0, k)
      modifies this`count, this`msg, buf
      ensures Valid() && count == end && n == k + end - old(count) && msg == m + Fill(0, n)
    {
      hide Fold;
      n := k;
      while count < end
        invariant old(count) <= count <= end && Valid() && n == k + count - old(count) && msg == m + Fill(0, n)
      {
        PutByte(0);
        assert m + Fill(0, n) + [0] == m + Fill(0, n + 1);
        n := n + 1;
      }
    }

    /** The end mark and the zeros of md5_final, up to the last eight bytes of a block. */
    method PadMessage()
      requires Valid() && count < BLOCK
      modifies this`state, this`count, this`nblocks, this`msg, buf
      ensures Valid() && count == 56 && msg == old(msg) + [0x80] + Fill(0, Zeros(old(|msg|)))
    {
      hide Fold;
      ghost var m, k := old(msg) + [0x80], 0;
      Blocks(|msg|, count);
      var room := count < 56;
      PutByte(0x80);
      assert msg == m + Fill(0, 0);
      if room {
        k := PadZeros(56, m, 0);
      } else {
        k := PadZeros(BLOCK, m, 0);
        Flush();
        k := PadZeros(56, m, k);
      }
      assert k == Zeros(old(|msg|));
    }

    lemma Blocks(n: nat, count: nat)
      requires count < BLOCK && count <= n && (n - count) % BLOCK == 0
      ensures n % BLOCK == count && (n - count) / BLOCK == n / BLOCK
    {}

    /** md5_final: the digest is that of the message with the length the block count remembers. */
    method Final() returns (digest: seq<Byte>)
      requires Valid()
      modifies this`state, this`count, this`nblocks, this`msg, buf
      ensures var length := LengthBytes(BitLength(old(|msg|) % COUNTED));
              digest == StateBytes(Fold(transform, INIT, Padded(old(msg), length)))
      ensures old(|msg|) / COUNTED % 0x80_0000 == 0 ==> digest == Hash(transform, old(msg))
    {
      hide Fold, LengthWords, BitLength, LittleEndian, StateBytes, Zeros;
      Flush();
      Blocks(|msg|, count);
      LengthWordsAre(|msg|);
      LengthExactly(|msg|);
      var words := LengthWords(nblocks, count);
      PadMessage();
      var used := CopyIn(LengthBytes(words));
      assert LengthBytes(words)[..used] == LengthBytes(words);
      assert msg == Padded(old(msg), LengthBytes(words));
      Flush();
      assert msg[..|msg|] == msg;
      digest := StateBytes(state);
    }
  }

  lemma NoPieces(pieces: seq<seq<Byte>>)
    ensures Flatten(pieces[..0]) == []
  {}

  /** Any split of a message into pieces hashes like the message in one piece. */
  method HashPieces(transform: Transform, pieces: seq<seq<Byte>>) returns (digest: seq<Byte>)
    requires |Flatten(pieces)| < COUNTED
    ensures digest == Hash(transform, Flatten(pieces))
  {
    hide Hash, Flatten, Context.Valid, BitLength, LengthWords;
    var ctx := new Context(transform);
    NoPieces(pieces);
    var i := 0;
    while i < |pieces|
      invariant 0 <= i <= |pieces| && fresh(ctx) && fresh(ctx.buf) && ctx.transform == transform
      invariant ctx.Valid() && ctx.msg == Flatten(pieces[..i])
    {
      ctx.Write(pieces[i]);
      assert pieces[..i + 1] == pieces[..i] + [pieces[i]];
      FlattenAppend(pieces[..i], [pieces[i]]);
      FlattenSingle(pieces[i]);
      i := i + 1;
    }
    assert pieces[..i] == pieces;
    digest := ctx.Final();
  }
}
