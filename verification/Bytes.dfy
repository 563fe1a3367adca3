/**
 Bytes, byte strings and the C idioms every other module needs: bitwise OR on
 naturals, memcpy/memset as splices, and big-endian words.
 */
module Bytes {

  type Byte = b: int | 0 <= b < 256

  datatype Option<+T> = None | Some(value: T)

  /** The concatenation of a sequence of sequences. */
  function Flatten<T>(ss: seq<seq<T>>): seq<T> {
    if ss == [] then [] else ss[0] + Flatten(ss[1..])
  }

  lemma {:induction false} FlattenAppend<T>(a: seq<seq<T>>, b: seq<seq<T>>)
    ensures Flatten(a + b) == Flatten(a) + Flatten(b)
  {
    if a == [] {
      assert a + b == b;
    } else {
      assert (a + b)[1..] == a[1..] + b;
      FlattenAppend(a[1..], b);
    }
  }

  lemma FlattenSingle<T>(a: seq<T>)
    ensures Flatten([a]) == a
  {
    assert [a][1..] == [];
  }

  /** The bytes of a C string literal. */
  function Text(s: string): (r: seq<Byte>)
    ensures |r| == |s|
  {
    seq(|s|, i requires 0 <= i < |s| => s[i] as int % 256)
  }

  /** n copies of one byte. */
  function Fill(b: Byte, n: nat): (r: seq<Byte>)
    ensures |r| == n && forall i :: 0 <= i < n ==> r[i] == b
  {
    seq(n, _ => b)
  }

  /** The string s with the bytes at off, off+1, ... overwritten by src. */
  function Splice<T>(s: seq<T>, off: nat, src: seq<T>): (r: seq<T>)
    requires off + |src| <= |s|
    ensures |r| == |s|
    ensures forall i :: 0 <= i < |s| ==>
              r[i] == if off <= i < off + |src| then src[i - off] else s[i]
  {
    s[..off] + src + s[off + |src|..]
  }

  lemma SpliceTwice<T>(s: seq<T>, off: nat, a: seq<T>, b: seq<T>)
    requires off + |a| + |b| <= |s|
    ensures Splice(Splice(s, off, a), off + |a|, b) == Splice(s, off, a + b)
  {}

  lemma SplicePrefix<T>(s: seq<T>, off: nat, a: seq<T>)
    requires off + |a| <= |s|
    ensures Splice(s, off, a)[..off + |a|] == s[..off] + a
  {}

  lemma SpliceAt<T>(s: seq<T>, off: nat, a: seq<T>)
    requires off + |a| <= |s|
    ensures Splice(s, off, a)[off..off + |a|] == a
  {}

  /** Four adjacent stores from the start of a buffer. */
  lemma SpliceFour<T>(s: seq<T>, a: seq<T>, b: seq<T>, c: seq<T>, d: seq<T>)
    requires |a| + |b| + |c| + |d| <= |s|
    ensures var t := Splice(Splice(Splice(s, 0, a), |a|, b), |a| + |b|, c);
            Splice(t, |a| + |b| + |c|, d)[..|a| + |b| + |c| + |d|] == a + b + (c + d)
  {
    SpliceTwice(s, 0, a, b);
    SpliceTwice(s, 0, a + b, c);
    SpliceTwice(s, 0, a + b + c, d);
    SplicePrefix(s, 0, a + b + c + d);
    assert a + b + c + d == a + b + (c + d);
  }

  /** memcpy(dst + off, src, |src|) */
  method Memcpy(dst: array<Byte>, off: nat, src: seq<Byte>)
    requires off + |src| <= dst.Length
    modifies dst
    ensures dst[..] == Splice(old(dst[..]), off, src)
  {
    forall i | 0 <= i < |src| {
      dst[off + i] := src[i];
    }
  }

  /** C division of integers. */
  function Quotient(a: int, b: int): int
    requires b > 0
  {
    if a >= 0 then a / b else -(-a / b)
  }

  function Pow2(k: nat): (r: nat)
    ensures r >= 1
  {
    if k == 0 then 1 else 2 * Pow2(k - 1)
  }

  /** Bitwise OR of two naturals, one bit at a time. */
  function Or(a: nat, b: nat): nat {
    if a == 0 && b == 0 then 0
    else 2 * Or(a / 2, b / 2) + (if a % 2 == 1 || b % 2 == 1 then 1 else 0)
  }

  lemma {:induction false} OrZero(a: nat)
    ensures Or(a, 0) == a && Or(0, a) == a
  {
    if a > 0 {
      OrZero(a / 2);
    }
  }

  lemma OrStep(x: nat, y: nat, u: nat)
    requires u < 2
    ensures Or(2 * x + u, 2 * y) == 2 * Or(x, y) + u
  {
    assert (2 * x + u) / 2 == x && (2 * y) / 2 == y;
  }

  lemma DoubleProduct(a: nat, k: nat)
    requires k > 0
    ensures a * Pow2(k) == 2 * (a * Pow2(k - 1)) >= 0
  {}

  /** OR acts on the bits above position k separately from those below it. */
  lemma {:induction false} OrHigh(k: nat, a: nat, b: nat, c: nat)
    requires c < Pow2(k)
    ensures a * Pow2(k) >= 0 && b * Pow2(k) >= 0
    ensures Or(a * Pow2(k) + c, b * Pow2(k)) == Or(a, b) * Pow2(k) + c
  {
    if k > 0 {
      OrHigh(k - 1, a, b, c / 2);
      DoubleProduct(a, k);
      DoubleProduct(b, k);
      DoubleProduct(Or(a, b), k);
      OrStep(a * Pow2(k - 1) + c / 2, b * Pow2(k - 1), c % 2);
    }
  }

  /** Two numbers with no bit in common are or-ed by adding them. */
  lemma OrDisjoint(k: nat, b: nat, c: nat)
    requires c < Pow2(k)
    ensures b * Pow2(k) >= 0
    ensures Or(c, b * Pow2(k)) == b * Pow2(k) + c
    ensures Or(b * Pow2(k), c) == b * Pow2(k) + c
  {
    OrHigh(k, 0, b, c);
    OrZero(b);
    OrCommutes(c, b * Pow2(k));
  }

  lemma {:induction false} OrCommutes(a: nat, b: nat)
    ensures Or(a, b) == Or(b, a)
    decreases a + b
  {
    if a > 0 || b > 0 {
      OrCommutes(a / 2, b / 2);
    }
  }
}
