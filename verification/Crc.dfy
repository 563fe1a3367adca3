/**
 The section CRC: the table-driven register of the code against division by
 x^32 + 0x04c11db7, one bit at a time (ISO/IEC 13818-1, Annex A).

 The bit-vector operators stand behind named functions, so that the algebra
 below is about terms and only the one-line lemmas look at bits.
 */
module Crc {
  import opened Bytes

  function Xor(a: bv32, b: bv32): bv32 { a ^ b }

  function Double(x: bv32): bv32 { x << 1 }

  predicate Top(x: bv32) { x & 0x8000_0000 != 0 }

  function Poly(carry: bool): bv32 {
    if carry then 0x04c1_1db7 else 0
  }

  /** One bit of the division. */
  function Step(x: bv32): bv32 {
    Xor(Double(x), Poly(Top(x)))
  }

  function EightSteps(x: bv32): bv32 {
    Step(Step(Step(Step(Step(Step(Step(Step(x))))))))
  }

  function Absorb(register: bv32, b: Byte): bv32 {
    Xor(register, b as bv32 << 24)
  }

  /** The register after shifting in every bit of data, most significant first. */
  function BitwiseCrc(register: bv32, data: seq<Byte>): bv32
    decreases |data|
  {
    if data == [] then register else BitwiseCrc(EightSteps(Absorb(register, data[0])), data[1..])
  }

  // crc_table, sixteen entries a row
  const ROW0: seq<bv32> := [
    0x00000000, 0x04c11db7, 0x09823b6e, 0x0d4326d9, 0x130476dc, 0x17c56b6b, 0x1a864db2, 0x1e475005,
    0x2608edb8, 0x22c9f00f, 0x2f8ad6d6, 0x2b4bcb61, 0x350c9b64, 0x31cd86d3, 0x3c8ea00a, 0x384fbdbd]

  const ROW1: seq<bv32> := [
    0x4c11db70, 0x48d0c6c7, 0x4593e01e, 0x4152fda9, 0x5f15adac, 0x5bd4b01b, 0x569796c2, 0x52568b75,
    0x6a1936c8, 0x6ed82b7f, 0x639b0da6, 0x675a1011, 0x791d4014, 0x7ddc5da3, 0x709f7b7a, 0x745e66cd]

  const ROW2: seq<bv32> := [
    0x9823b6e0, 0x9ce2ab57, 0x91a18d8e, 0x95609039, 0x8b27c03c, 0x8fe6dd8b, 0x82a5fb52, 0x8664e6e5,
    0xbe2b5b58, 0xbaea46ef, 0xb7a96036, 0xb3687d81, 0xad2f2d84, 0xa9ee3033, 0xa4ad16ea, 0xa06c0b5d]

  const ROW3: seq<bv32> := [
    0xd4326d90, 0xd0f37027, 0xddb056fe, 0xd9714b49, 0xc7361b4c, 0xc3f706fb, 0xceb42022, 0xca753d95,
    0xf23a8028, 0xf6fb9d9f, 0xfbb8bb46, 0xff79a6f1, 0xe13ef6f4, 0xe5ffeb43, 0xe8bccd9a, 0xec7dd02d]

  const ROW4: seq<bv32> := [
    0x34867077, 0x30476dc0, 0x3d044b19, 0x39c556ae, 0x278206ab, 0x23431b1c, 0x2e003dc5, 0x2ac12072,
    0x128e9dcf, 0x164f8078, 0x1b0ca6a1, 0x1fcdbb16, 0x018aeb13, 0x054bf6a4, 0x0808d07d, 0x0cc9cdca]

  const ROW5: seq<bv32> := [
    0x7897ab07, 0x7c56b6b0, 0x71159069, 0x75d48dde, 0x6b93dddb, 0x6f52c06c, 0x6211e6b5, 0x66d0fb02,
    0x5e9f46bf, 0x5a5e5b08, 0x571d7dd1, 0x53dc6066, 0x4d9b3063, 0x495a2dd4, 0x44190b0d, 0x40d816ba]

  const ROW6: seq<bv32> := [
    0xaca5c697, 0xa864db20, 0xa527fdf9, 0xa1e6e04e, 0xbfa1b04b, 0xbb60adfc, 0xb6238b25, 0xb2e29692,
    0x8aad2b2f, 0x8e6c3698, 0x832f1041, 0x87ee0df6, 0x99a95df3, 0x9d684044, 0x902b669d, 0x94ea7b2a]

  const ROW7: seq<bv32> := [
    0xe0b41de7, 0xe4750050, 0xe9362689, 0xedf73b3e, 0xf3b06b3b, 0xf771768c, 0xfa325055, 0xfef34de2,
    0xc6bcf05f, 0xc27dede8, 0xcf3ecb31, 0xcbffd686, 0xd5b88683, 0xd1799b34, 0xdc3abded, 0xd8fba05a]

  const ROW8: seq<bv32> := [
    0x690ce0ee, 0x6dcdfd59, 0x608edb80, 0x644fc637, 0x7a089632, 0x7ec98b85, 0x738aad5c, 0x774bb0eb,
    0x4f040d56, 0x4bc510e1, 0x46863638, 0x42472b8f, 0x5c007b8a, 0x58c1663d, 0x558240e4, 0x51435d53]

  const ROW9: seq<bv32> := [
    0x251d3b9e, 0x21dc2629, 0x2c9f00f0, 0x285e1d47, 0x36194d42, 0x32d850f5, 0x3f9b762c, 0x3b5a6b9b,
    0x0315d626, 0x07d4cb91, 0x0a97ed48, 0x0e56f0ff, 0x1011a0fa, 0x14d0bd4d, 0x19939b94, 0x1d528623]

  const ROWA: seq<bv32> := [
    0xf12f560e, 0xf5ee4bb9, 0xf8ad6d60, 0xfc6c70d7, 0xe22b20d2, 0xe6ea3d65, 0xeba91bbc, 0xef68060b,
    0xd727bbb6, 0xd3e6a601, 0xdea580d8, 0xda649d6f, 0xc423cd6a, 0xc0e2d0dd, 0xcda1f604, 0xc960ebb3]

  const ROWB: seq<bv32> := [
    0xbd3e8d7e, 0xb9ff90c9, 0xb4bcb610, 0xb07daba7, 0xae3afba2, 0xaafbe615, 0xa7b8c0cc, 0xa379dd7b,
    0x9b3660c6, 0x9ff77d71, 0x92b45ba8, 0x9675461f, 0x8832161a, 0x8cf30bad, 0x81b02d74, 0x857130c3]

  const ROWC: seq<bv32> := [
    0x5d8a9099, 0x594b8d2e, 0x5408abf7, 0x50c9b640, 0x4e8ee645, 0x4a4ffbf2, 0x470cdd2b, 0x43cdc09c,
    0x7b827d21, 0x7f436096, 0x7200464f, 0x76c15bf8, 0x68860bfd, 0x6c47164a, 0x61043093, 0x65c52d24]

  const ROWD: seq<bv32> := [
    0x119b4be9, 0x155a565e, 0x18197087, 0x1cd86d30, 0x029f3d35, 0x065e2082, 0x0b1d065b, 0x0fdc1bec,
    0x3793a651, 0x3352bbe6, 0x3e119d3f, 0x3ad08088, 0x2497d08d, 0x2056cd3a, 0x2d15ebe3, 0x29d4f654]

  const ROWE: seq<bv32> := [
    0xc5a92679, 0xc1683bce, 0xcc2b1d17, 0xc8ea00a0, 0xd6ad50a5, 0xd26c4d12, 0xdf2f6bcb, 0xdbee767c,
    0xe3a1cbc1, 0xe760d676, 0xea23f0af, 0xeee2ed18, 0xf0a5bd1d, 0xf464a0aa, 0xf9278673, 0xfde69bc4]

  const ROWF: seq<bv32> := [
    0x89b8fd09, 0x8d79e0be, 0x803ac667, 0x84fbdbd0, 0x9abc8bd5, 0x9e7d9662, 0x933eb0bb, 0x97ffad0c,
    0xafb010b1, 0xab710d06, 0xa6322bdf, 0xa2f33668, 0xbcb4666d, 0xb8757bda, 0xb5365d03, 0xb1f740b4]

  const TABLE: seq<seq<bv32>> := [
    ROW0, ROW1, ROW2, ROW3, ROW4, ROW5, ROW6, ROW7, ROW8, ROW9, ROWA, ROWB, ROWC, ROWD, ROWE, ROWF]

  function TableAt(x: bv32): bv32
    requires x < 256
  {
    TABLE[(x >> 4) as int][(x & 0xf) as int]
  }

  function TableIndex(crc: bv32, b: Byte): (r: bv32)
    ensures r < 256
  {
    ((crc >> 24) ^ b as bv32) & 0xff
  }

  /** One byte through the table. */
  function TableStep(crc: bv32, b: Byte): bv32 {
    Xor(crc << 8, TableAt(TableIndex(crc, b)))
  }

  /** The loop of crc32, over len bytes from off. */
  method Crc32(data: array<Byte>, off: nat, len: nat) returns (crc: bv32)
    requires off + len <= data.Length
    ensures crc == BitwiseCrc(0xffff_ffff, data[off..off + len])
  {
    hide TableStep, EightSteps, Absorb, TableAt, TableIndex;
    crc := 0xffff_ffff;
    ghost var all := data[off..off + len];
    var i := 0;
    while i < len
      invariant 0 <= i <= len
      invariant BitwiseCrc(0xffff_ffff, all) == BitwiseCrc(crc, all[i..])
    {
      TableStepIsDivision(crc, data[off + i]);
      assert all[i..][0] == data[off + i] && all[i..][1..] == all[i + 1..];
      crc := TableStep(crc, data[off + i]);
      i := i + 1;
    }
  }

  /** A message followed by its own CRC, most significant byte first, leaves a zero register. */
  lemma {:induction false} ResidueIsZero(register: bv32, data: seq<Byte>)
    ensures BitwiseCrc(register, data + CrcBytes(BitwiseCrc(register, data))) == 0
    decreases |data|
  {
    hide EightSteps, Absorb, CrcBytes;
    var crc := BitwiseCrc(register, data);
    if data == [] {
      assert data + CrcBytes(crc) == CrcBytes(crc);
      CrcOfItself(crc);
    } else {
      var next := EightSteps(Absorb(register, data[0]));
      assert (data + CrcBytes(crc))[1..] == data[1..] + CrcBytes(crc);
      ResidueIsZero(next, data[1..]);
    }
  }

  function TopByte(x: bv32): Byte {
    (x >> 24) as int
  }

  function ShiftByte(x: bv32): bv32 { x << 8 }

  /** The four bytes of a register, most significant first. */
  function CrcBytes(crc: bv32): (r: seq<Byte>)
    ensures |r| == 4
  {
    var c1 := ShiftByte(crc);
    var c2 := ShiftByte(c1);
    [TopByte(crc), TopByte(c1), TopByte(c2), TopByte(ShiftByte(c2))]
  }

  lemma ByteOfWord(x: bv32)
    requires x < 256
    ensures (x as int) as bv32 == x
  {}

  lemma XorZero(x: bv32)
    ensures Xor(x, 0) == x
  {}

  lemma AbsorbOwnTop(crc: bv32)
    ensures TableStep(crc, TopByte(crc)) == ShiftByte(crc)
  {
    ByteOfWord(crc >> 24);
    assert TableIndex(crc, TopByte(crc)) == 0;
    XorZero(crc << 8);
  }

  lemma ShiftedOut(crc: bv32)
    ensures ShiftByte(ShiftByte(ShiftByte(ShiftByte(crc)))) == 0
  {}

  lemma CrcOfItself(crc: bv32)
    ensures BitwiseCrc(crc, CrcBytes(crc)) == 0
  {
    hide EightSteps, Absorb, TopByte, ShiftByte, TableStep;
    var b := CrcBytes(crc);
    var c1 := ShiftByte(crc);
    var c2 := ShiftByte(c1);
    var c3 := ShiftByte(c2);
    ShiftedOut(crc);
    FeedTop(crc, b);
    FeedTop(c1, b[1..]);
    FeedTop(c2, b[1..][1..]);
    FeedTop(c3, b[1..][1..][1..]);
  }

  lemma FeedTop(crc: bv32, data: seq<Byte>)
    requires data != [] && data[0] == TopByte(crc)
    ensures BitwiseCrc(crc, data) == BitwiseCrc(ShiftByte(crc), data[1..])
  {
    hide EightSteps, Absorb, TopByte, ShiftByte, TableStep;
    AbsorbOwnTop(crc);
    TableStepIsDivision(crc, data[0]);
  }

  // ---- a division step leaves alone what sits below the top bit

  lemma XorShift(a: bv32, b: bv32, p: bv32)
    ensures Xor(Double(Xor(a, b)), p) == Xor(Xor(Double(a), p), Double(b))
  {}

  lemma TopBit(a: bv32, b: bv32)
    requires !Top(b)
    ensures Top(Xor(a, b)) == Top(a)
  {}

  lemma StepLow(a: bv32, b: bv32)
    requires !Top(b)
    ensures Step(Xor(a, b)) == Xor(Step(a), Double(b))
  {
    TopBit(a, b);
    XorShift(a, b, Poly(Top(a)));
  }

  function Steps(k: nat, x: bv32): bv32 {
    if k == 0 then x else Step(Steps(k - 1, x))
  }

  function Doubles(k: nat, x: bv32): bv32 {
    if k == 0 then x else Double(Doubles(k - 1, x))
  }

  lemma {:induction false} StepsLow(k: nat, a: bv32, b: bv32)
    requires forall i {:trigger Doubles(i, b)} :: 0 <= i < k ==> !Top(Doubles(i, b))
    ensures Steps(k, Xor(a, b)) == Xor(Steps(k, a), Doubles(k, b))
  {
    if k > 0 {
      StepsLow(k - 1, a, b);
      StepLow(Steps(k - 1, a), Doubles(k - 1, b));
    }
  }

  lemma EightIsSteps(x: bv32)
    ensures Steps(8, x) == EightSteps(x)
  {
    assert Steps(1, x) == Step(Steps(0, x));
    assert Steps(2, x) == Step(Steps(1, x));
    assert Steps(3, x) == Step(Steps(2, x));
    assert Steps(4, x) == Step(Steps(3, x));
    assert Steps(5, x) == Step(Steps(4, x));
    assert Steps(6, x) == Step(Steps(5, x));
    assert Steps(7, x) == Step(Steps(6, x));
  }

  lemma LowBytes(b: bv32)
    requires b & 0xff00_0000 == 0
    ensures !Top(b) && !Top(b << 1) && !Top(b << 2) && !Top(b << 3) && !Top(b << 4) && !Top(b << 5)
    ensures !Top(b << 6) && !Top(b << 7)
    ensures Double(b << 1) == b << 2 && Double(b << 2) == b << 3 && Double(b << 3) == b << 4 && Double(b << 4) == b << 5
    ensures Double(b << 5) == b << 6 && Double(b << 6) == b << 7 && Double(b << 7) == b << 8
  {}

  lemma DoublesLow(b: bv32)
    requires b & 0xff00_0000 == 0
    ensures forall i {:trigger Doubles(i, b)} :: 0 <= i < 8 ==> !Top(Doubles(i, b))
    ensures Doubles(8, b) == b << 8
  {
    LowBytes(b);
    assert Doubles(0, b) == b;
    assert Doubles(1, b) == b << 1;
    assert Doubles(2, b) == b << 2;
    assert Doubles(3, b) == Double(Doubles(2, b)) == b << 3;
    assert Doubles(4, b) == Double(Doubles(3, b)) == b << 4;
    assert Doubles(5, b) == Double(Doubles(4, b)) == b << 5;
    assert Doubles(6, b) == Double(Doubles(5, b)) == b << 6;
    assert Doubles(7, b) == Double(Doubles(6, b)) == b << 7;
    assert Doubles(8, b) == Double(Doubles(7, b)) == b << 8;
    forall i | 0 <= i < 8
      ensures !Top(Doubles(i, b))
    {
      assert i in {0, 1, 2, 3, 4, 5, 6, 7};
    }
  }

  lemma EightLow(a: bv32, b: bv32)
    requires b & 0xff00_0000 == 0
    ensures EightSteps(Xor(a, b)) == Xor(EightSteps(a), b << 8)
  {
    hide Double, Top, Xor, Step, EightSteps;
    DoublesLow(b);
    StepsLow(8, a, b);
    EightIsSteps(a);
    EightIsSteps(Xor(a, b));
  }

  lemma SplitRegister(crc: bv32, b: Byte)
    ensures var x := Absorb(crc, b);
            && x == Xor(TableIndex(crc, b) << 24, x & 0x00ff_ffff)
            && (x & 0x00ff_ffff) & 0xff00_0000 == 0
            && (x & 0x00ff_ffff) << 8 == crc << 8
  {}

  lemma XorCommutes(a: bv32, b: bv32)
    ensures Xor(a, b) == Xor(b, a)
  {}

  /** One table step is eight division steps, for every register and byte. */
  lemma TableStepIsDivision(crc: bv32, b: Byte)
    ensures TableStep(crc, b) == EightSteps(Absorb(crc, b))
  {
    hide EightSteps, Xor, Absorb, TableIndex, TableAt;
    var hi, lo := TableIndex(crc, b) << 24, Absorb(crc, b) & 0x00ff_ffff;
    SplitRegister(crc, b);
    EightLow(hi, lo);
    TableIsDivision(TableIndex(crc, b));
    XorCommutes(EightSteps(hi), crc << 8);
  }

  // ---- every table entry is eight division steps of its index

  lemma StepLinear(a: bv32, b: bv32)
    ensures Step(Xor(a, b)) == Xor(Step(a), Step(b))
  {
    hide Xor, Double, Top, Poly;
    TopXor(a, b);
    PolyXor(Top(a), Top(b));
    Shuffle(a, b, Poly(Top(a)), Poly(Top(b)));
  }

  lemma TopXor(a: bv32, b: bv32)
    ensures Top(Xor(a, b)) == (Top(a) != Top(b))
  {
    assert a & 0x8000_0000 == 0 || a & 0x8000_0000 == 0x8000_0000;
    assert b & 0x8000_0000 == 0 || b & 0x8000_0000 == 0x8000_0000;
    assert Xor(a, b) & 0x8000_0000 == Xor(a & 0x8000_0000, b & 0x8000_0000);
  }

  lemma PolyXor(p: bool, q: bool)
    ensures Poly(p != q) == Xor(Poly(p), Poly(q))
  {}

  lemma Shuffle(a: bv32, b: bv32, p: bv32, q: bv32)
    ensures Xor(Double(Xor(a, b)), Xor(p, q)) == Xor(Xor(Double(a), p), Xor(Double(b), q))
  {
    hide Xor, Double;
    XorShift(a, b, Xor(p, q));
    XorAssoc(Double(a), p, q);
    XorAssoc(Xor(Double(a), p), q, Double(b));
    XorCommutes(q, Double(b));
  }

  lemma XorAssoc(a: bv32, b: bv32, c: bv32)
    ensures Xor(a, Xor(b, c)) == Xor(Xor(a, b), c)
  {}

  lemma {:induction false} StepsLinear(k: nat, a: bv32, b: bv32)
    ensures Steps(k, Xor(a, b)) == Xor(Steps(k, a), Steps(k, b))
  {
    hide Step, Xor;
    if k > 0 {
      StepsLinear(k - 1, a, b);
      StepLinear(Steps(k - 1, a), Steps(k - 1, b));
    }
  }

  /** A row is its head combined with each entry of the first row. */
  function RowFrom(h: bv32): seq<bv32> {
    [Xor(h, ROW0[0]), Xor(h, ROW0[1]), Xor(h, ROW0[2]), Xor(h, ROW0[3]),
     Xor(h, ROW0[4]), Xor(h, ROW0[5]), Xor(h, ROW0[6]), Xor(h, ROW0[7]),
     Xor(h, ROW0[8]), Xor(h, ROW0[9]), Xor(h, ROW0[10]), Xor(h, ROW0[11]),
     Xor(h, ROW0[12]), Xor(h, ROW0[13]), Xor(h, ROW0[14]), Xor(h, ROW0[15])]
  }

  lemma FirstRow(c: bv32)
    requires c < 16
    ensures ROW0[c as int] == EightSteps(c << 24)
  {
    if c == 0 { assert c as int == 0; }
    else if c == 1 { assert c as int == 1; }
    else if c == 2 { assert c as int == 2; }
    else if c == 3 { assert c as int == 3; }
    else if c == 4 { assert c as int == 4; }
    else if c == 5 { assert c as int == 5; }
    else if c == 6 { assert c as int == 6; }
    else if c == 7 { assert c as int == 7; }
    else if c == 8 { assert c as int == 8; }
    else if c == 9 { assert c as int == 9; }
    else if c == 10 { assert c as int == 10; }
    else if c == 11 { assert c as int == 11; }
    else if c == 12 { assert c as int == 12; }
    else if c == 13 { assert c as int == 13; }
    else if c == 14 { assert c as int == 14; }
    else { assert c == 15; assert c as int == 15; }
  }

  lemma RowHead(r: bv32)
    requires r < 16
    ensures TABLE[r as int] == RowFrom(EightSteps(r << 28))
  {
    hide TABLE, RowFrom, EightSteps;
    if r < 4 { Rows0To3(r); } else if r < 6 { Rows4To5(r); } else if r < 9 { Rows6To8(r); }
    else if r < 12 { Rows9ToB(r); } else { RowsCToF(r); }
  }

  lemma Rows0To3(r: bv32)
    requires r < 4
    ensures TABLE[r as int] == RowFrom(EightSteps(r << 28))
  {
    if r == 0 { assert r as int == 0 && ROW0 == RowFrom(EightSteps(0)); }
    else if r == 1 { assert r as int == 1 && ROW1 == RowFrom(EightSteps(0x1000_0000)); }
    else if r == 2 { assert r as int == 2 && ROW2 == RowFrom(EightSteps(0x2000_0000)); }
    else { assert r == 3; assert r as int == 3 && ROW3 == RowFrom(EightSteps(0x3000_0000)); }
  }

  lemma Rows4To5(r: bv32)
    requires 4 <= r < 6
    ensures TABLE[r as int] == RowFrom(EightSteps(r << 28))
  {
    if r == 4 { assert r as int == 4 && ROW4 == RowFrom(EightSteps(0x4000_0000)); }
    else { assert r == 5; assert r as int == 5 && ROW5 == RowFrom(EightSteps(0x5000_0000)); }
  }

  lemma Rows6To8(r: bv32)
    requires 6 <= r < 9
    ensures TABLE[r as int] == RowFrom(EightSteps(r << 28))
  {
    if r == 6 { assert r as int == 6 && ROW6 == RowFrom(EightSteps(0x6000_0000)); }
    else if r == 7 { assert r as int == 7 && ROW7 == RowFrom(EightSteps(0x7000_0000)); }
    else { assert r == 8; assert r as int == 8 && ROW8 == RowFrom(EightSteps(0x8000_0000)); }
  }

  lemma Rows9ToB(r: bv32)
    requires 9 <= r < 12
    ensures TABLE[r as int] == RowFrom(EightSteps(r << 28))
  {
    if r == 9 { assert r as int == 9 && ROW9 == RowFrom(EightSteps(0x9000_0000)); }
    else if r == 10 { assert r as int == 10 && ROWA == RowFrom(EightSteps(0xa000_0000)); }
    else { assert r == 11; assert r as int == 11 && ROWB == RowFrom(EightSteps(0xb000_0000)); }
  }

  lemma RowsCToF(r: bv32)
    requires 12 <= r < 16
    ensures TABLE[r as int] == RowFrom(EightSteps(r << 28))
  {
    if r == 12 { assert r as int == 12 && ROWC == RowFrom(EightSteps(0xc000_0000)); }
    else if r == 13 { assert r as int == 13 && ROWD == RowFrom(EightSteps(0xd000_0000)); }
    else if r == 14 { assert r as int == 14 && ROWE == RowFrom(EightSteps(0xe000_0000)); }
    else { assert r == 15; assert r as int == 15 && ROWF == RowFrom(EightSteps(0xf000_0000)); }
  }

  lemma Nibbles(x: bv32)
    requires x < 256
    ensures x << 24 == Xor((x >> 4) << 28, (x & 0xf) << 24)
  {}

  lemma RowAt(h: bv32, c: int)
    requires 0 <= c < 16
    ensures RowFrom(h)[c] == Xor(h, ROW0[c])
  {
    hide Xor;
  }

  /** The entries of one row follow from its head and the first row, because division is linear. */
  lemma TableIsDivision(x: bv32)
    requires x < 256
    ensures TableAt(x) == EightSteps(x << 24)
  {
    hide EightSteps, Xor, RowFrom;
    var r, c := x >> 4, x & 0xf;
    FirstRow(c);
    RowHead(r);
    RowAt(EightSteps(r << 28), c as int);
    Nibbles(x);
    StepsLinear(8, r << 28, c << 24);
    EightIsSteps(r << 28);
    EightIsSteps(c << 24);
    EightIsSteps(x << 24);
  }
}
