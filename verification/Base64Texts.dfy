/**
 Base64 told from the texts: the digits of RFC 4648 section 4, and which
 characters the decoder skips, stops at and takes.
 */
module Base64Texts {
  import opened Bytes
  import opened Base64

  // ---- encoding

  /** The byte at k, zeros behind the last. */
  function ByteAt(s: seq<Byte>, k: nat): Byte {
    if k < |s| then s[k] else 0
  }

  /** The 24 bits of group q, first byte first. */
  function Bits(s: seq<Byte>, q: nat): nat {
    ByteAt(s, 3 * q) as int * 65536 + ByteAt(s, 3 * q + 1) as int * 256 + ByteAt(s, 3 * q + 2)
  }

  /** Digit k of a number of four digits in base 64, the first one highest. */
  function Digit(n: nat, k: nat): (d: nat)
    requires k < 4
    ensures d < 64
  {
    (if k == 0 then n / 262144 else if k == 1 then n / 4096 else if k == 2 then n / 64 else n) % 64
  }

  lemma GroupDigits(a: Alphabet, x: Byte, y: Byte, z: Byte, k: nat)
    requires k < 4
    ensures Group(a, x, y, z)[k] == Characters(a)[Digit(x as int * 65536 + y as int * 256 + z, k)]
  {
    hide Characters, Char, Digit;
    FourDigits(x, y, z);
    CharactersAre(a, Digit(x as int * 65536 + y as int * 256 + z, k));
  }

  lemma FourDigits(x: Byte, y: Byte, z: Byte)
    ensures var n := x as int * 65536 + y as int * 256 + z;
            && Digit(n, 0) == x / 4 && Digit(n, 1) == x % 4 * 16 + y / 16
            && Digit(n, 2) == y % 16 * 4 + z / 64 && Digit(n, 3) == z % 64
  {
    var n := x as int * 65536 + y as int * 256 + z;
    Shifted(n, 262144, x / 4, x % 4 * 65536 + y as int * 256 + z);
    Shifted(n, 4096, x as int * 16 + y / 16, y % 16 * 256 + z);
    Shifted(n, 64, x as int * 1024 + y * 4 + z / 64, z % 64);
    Shifted(x as int * 16 + y / 16, 64, x / 4, x % 4 * 16 + y / 16);
    Shifted(x as int * 1024 + y * 4 + z / 64, 64, x as int * 16 + y / 16, y % 16 * 4 + z / 64);
    Shifted(n, 64, x as int * 1024 + y * 4 + z / 64, z % 64);
  }

  lemma Shifted(n: nat, unit: nat, high: nat, low: nat)
    requires low < unit && n == high * unit + low
    ensures n / unit == high && n % unit == low
  {
    Unique(n / unit - high, unit, low - n % unit);
  }

  lemma Unique(d: int, unit: int, r: int)
    requires d * unit == r && -unit < r < unit
    ensures d == 0 && r == 0
  {}

  /** Every character of the text: a digit of its group, or a pad where a group of m bytes has no more than m + 1. */
  lemma {:induction false} EncodedDigits(a: Alphabet, s: seq<Byte>, k: nat)
    requires k < |Encoded(a, s)|
    ensures Encoded(a, s)[k] ==
            if 3 * (k / 4) + k % 4 > |s| then Text("=")[0] else Characters(a)[Digit(Bits(s, k / 4), k % 4)]
    decreases |s|
  {
    hide Group, Characters, Digit;
    assert Text("=") == [PAD];
    var x, y, z := ByteAt(s, 0), ByteAt(s, 1), ByteAt(s, 2);
    if k < 4 {
      GroupDigits(a, x, y, z, k);
    } else {
      EncodedDigits(a, s[3..], k - 4);
      BitsShift(s, (k - 4) / 4);
    }
  }

  lemma BitsShift(s: seq<Byte>, q: nat)
    requires |s| >= 3
    ensures Bits(s[3..], q) == Bits(s, q + 1)
  {
  }

  // ---- decoding

  /** A character the decoder stops at: no digit, pad or line end, white space or not as the flags say. */
  predicate Stops(a: Alphabet, f: Flags, c: Byte) {
    && !Data(a, c) && c !in CRLF
    && if c in Text(" \t") + [8, 11] then f.stopOnSpace else f.stopOnUnknown
  }

  /** The URL-safe decoder takes the standard digits too. */
  predicate Data(a: Alphabet, c: Byte) {
    c in Characters(a) || c in Characters(Standard) || c in Text("=")
  }

  /** The data of a text. */
  function Kept(a: Alphabet, s: seq<Byte>): seq<Byte> {
    if s == [] then [] else (if Data(a, s[0]) then [s[0]] else []) + Kept(a, s[1..])
  }

  lemma DigitIsData(a: Alphabet, c: Byte)
    ensures Index(a, c).Some? ==>
              var i := Index(a, c).value; c == Characters(a)[i] || c == Characters(Standard)[i]
    ensures Index(a, c).Some? <==> c in Characters(a) || c in Characters(Standard)
  {
    hide Characters;
    forall b: Alphabet, i: nat | i < 64 ensures Characters(b)[i] == Char(b, i) && Index(b, Char(b, i)) == Some(i) {
      CharactersAre(b, i);
      IndexOfChar(b, i);
    }
    if c in Characters(a) {
      OfAlphabet(a, c);
    } else if c in Characters(Standard) {
      OfAlphabet(Standard, c);
      StandardToo(a, c);
    }
    if Index(a, c).Some? {
      CharOfIndex(a, c);
      assert c == Char(a, Index(a, c).value) || c == Char(Standard, Index(a, c).value);
    }
  }

  lemma StandardToo(a: Alphabet, c: Byte)
    ensures Index(Standard, c).Some? ==> Index(a, c).Some?
  {}

  lemma CharOfIndex(a: Alphabet, c: Byte)
    requires Index(a, c).Some?
    ensures var i := Index(a, c).value; c == Char(a, i) || c == Char(Standard, i)
  {}

  lemma StopsExactly(a: Alphabet, f: Flags, c: Byte)
    ensures Data(a, c) <==> c == PAD || Index(a, c).Some?
    ensures Stops(a, f, c) <==> c != PAD && Index(a, c) == None && !Skipped(f, c)
  {
    hide Index, Characters;
    DigitIsData(a, c);
    assert Text("=") == [PAD] && Text(" \t") + [8, 11] == [32, 9, 8, 11];
  }

  predicate NoStop(a: Alphabet, f: Flags, s: seq<Byte>) {
    forall p :: 0 <= p < |s| ==> !Stops(a, f, s[p])
  }

  /**
   The result names the first character of the text to stop at, and there is none in a text without pads otherwise.
   */
  predicate FirstStop(a: Alphabet, f: Flags, s: seq<Byte>, r: Result, pads: nat) {
    match r
    case Bad(at) =>
      && 0 < |at| <= |s| && at == s[|s| - |at|..] && Stops(a, f, at[0]) && NoStop(a, f, s[..|s| - |at|])
    case Decoded(_) => pads == 0 && PAD !in s ==> NoStop(a, f, s)
  }

  lemma OneMore(a: Alphabet, f: Flags, s: seq<Byte>, r: Result, n: nat, pads: nat)
    requires s != [] && !Stops(a, f, s[0]) && FirstStop(a, f, s[1..], r, n)
    requires n == if s[0] == PAD then pads + 1 else if Data(a, s[0]) then 0 else pads
    ensures FirstStop(a, f, s, r, pads)
  {
    hide Stops, Data;
    match r
    case Bad(at) =>
      assert s[..|s| - |at|] == [s[0]] + s[1..][..|s| - 1 - |at|];
    case Decoded(_) =>
      assert s == [s[0]] + s[1..];
  }

  /**
   The decoder stops at the first character that has to stop it, before a padded group ends the data; a text without
   pads is decoded exactly when it has no such character.
   */
  lemma {:induction false} BadExactly(a: Alphabet, f: Flags, s: seq<Byte>, idx: seq<nat>, pads: nat)
    requires Indexes(idx)
    ensures FirstStop(a, f, s, Decode(a, f, s, idx, pads), pads)
    decreases |s|
  {
    hide Stops, Index, Skipped, Triple, FirstStop, Data;
    if s == [] {
      NothingStops(a, f, pads);
    } else {
      StopsExactly(a, f, s[0]);
      var more := idx + [if s[0] == PAD || Index(a, s[0]) == None then 0 else Index(a, s[0]).value];
      var n := if s[0] == PAD then pads + 1 else 0;
      if Stops(a, f, s[0]) {
        StopsHere(a, f, s, pads);
      } else if !Data(a, s[0]) {
        BadExactly(a, f, s[1..], idx, pads);
        OneMore(a, f, s, Decode(a, f, s[1..], idx, pads), pads, pads);
      } else if |more| < 4 {
        BadExactly(a, f, s[1..], more, n);
        OneMore(a, f, s, Decode(a, f, s[1..], more, n), n, pads);
      } else if n == 0 {
        BadExactly(a, f, s[1..], [], 0);
        SameStop(a, f, s[1..], Triple(more, 0), Decode(a, f, s[1..], [], 0), 0);
        OneMore(a, f, s, Prepend(Triple(more, 0), Decode(a, f, s[1..], [], 0)), 0, pads);
      } else {
        Ended(a, f, s, Triple(more, n), pads);
      }
    }
  }

  lemma NothingStops(a: Alphabet, f: Flags, pads: nat)
    ensures FirstStop(a, f, [], Decoded([]), pads)
  {}

  lemma StopsHere(a: Alphabet, f: Flags, s: seq<Byte>, pads: nat)
    requires s != [] && Stops(a, f, s[0])
    ensures FirstStop(a, f, s, Bad(s), pads)
  {}

  lemma SameStop(a: Alphabet, f: Flags, s: seq<Byte>, b: seq<Byte>, r: Result, pads: nat)
    requires FirstStop(a, f, s, r, pads)
    ensures FirstStop(a, f, s, Prepend(b, r), pads)
  {}

  lemma Ended(a: Alphabet, f: Flags, s: seq<Byte>, b: seq<Byte>, pads: nat)
    requires s != [] && s[0] == PAD
    ensures FirstStop(a, f, s, Decoded(b), pads)
  {}

  /** What is skipped makes no difference to the bytes. */
  lemma {:induction false} KeptDecodes(a: Alphabet, f: Flags, s: seq<Byte>, idx: seq<nat>, pads: nat)
    requires Indexes(idx) && Decode(a, f, s, idx, pads).Decoded?
    ensures Decode(a, f, Kept(a, s), idx, pads) == Decode(a, f, s, idx, pads)
    decreases |s|
  {
    hide Index, Skipped, Triple, Data;
    if s != [] {
      StopsExactly(a, f, s[0]);
      var more := idx + [if s[0] == PAD || Index(a, s[0]) == None then 0 else Index(a, s[0]).value];
      var n := if s[0] == PAD then pads + 1 else 0;
      if !Data(a, s[0]) {
        KeptDecodes(a, f, s[1..], idx, pads);
      } else if |more| < 4 {
        KeptDecodes(a, f, s[1..], more, n);
      } else if n == 0 {
        KeptDecodes(a, f, s[1..], [], 0);
      }
      assert !Data(a, s[0]) ==> Kept(a, s) == Kept(a, s[1..]);
      assert Data(a, s[0]) ==> Kept(a, s)[0] == s[0] && Kept(a, s)[1..] == Kept(a, s[1..]);
    }
  }

  /** The other way round: whole groups of digits are what encoding the decoded bytes gives. */
  lemma {:induction false} EncodesBack(a: Alphabet, f: Flags, t: seq<Byte>)
    requires |t| % 4 == 0 && forall i :: 0 <= i < |t| ==> t[i] in Characters(a)
    ensures var r := Decode(a, f, t, [], 0);
            r.Decoded? && Encoded(a, r.bytes) == t
    decreases |t|
  {
    hide Index, Skipped, Triple, Characters, Char, Decode;
    if t == [] {
      DecodeEnd(a, f, [], 0, []);
      PrependNothing(Decode(a, f, [], [], 0));
    } else {
      var g, rest := t[..4], t[4..];
      EncodesBack(a, f, rest);
      forall i | 0 <= i < 4 ensures g[i] != PAD && Index(a, g[i]).Some? && g[i] == Char(a, Index(a, g[i]).value) {
        OfAlphabet(a, g[i]);
      }
      var idx := [Index(a, g[0]).value, Index(a, g[1]).value, Index(a, g[2]).value, Index(a, g[3]).value];
      assert t == g + rest;
      FourSteps(a, f, g, idx, rest);
      var b := Triple(idx, 0);
      TripleGroups(a, idx);
      EncodedGroup(a, b, Decode(a, f, rest, [], 0).bytes);
    }
  }

  lemma OfAlphabet(a: Alphabet, c: Byte)
    requires c in Characters(a)
    ensures c != PAD && Index(a, c).Some? && c == Char(a, Index(a, c).value)
  {
    hide Characters, Index, Char;
    var i :| 0 <= i < 64 && Characters(a)[i] == c;
    CharactersAre(a, i);
    IndexOfChar(a, i);
  }

  lemma TripleGroups(a: Alphabet, idx: seq<nat>)
    requires |idx| == 4 && forall k :: 0 <= k < 4 ==> idx[k] < 64
    ensures var b := Triple(idx, 0);
            |b| == 3 && Group(a, b[0], b[1], b[2]) ==
                        [Char(a, idx[0]), Char(a, idx[1]), Char(a, idx[2]), Char(a, idx[3])]
  {
    hide Char;
    var i, j, k, l := idx[0], idx[1], idx[2], idx[3];
    assert (i * 4 + j / 16) / 4 == i && (i * 4 + j / 16) % 4 == j / 16;
    assert (j % 16 * 16 + k / 4) / 16 == j % 16 && (j % 16 * 16 + k / 4) % 16 == k / 4;
    assert (k % 4 * 64 + l) / 64 == k % 4 && (k % 4 * 64 + l) % 64 == l;
  }

  lemma EncodedGroup(a: Alphabet, b: seq<Byte>, more: seq<Byte>)
    requires |b| == 3
    ensures Encoded(a, b + more) == Group(a, b[0], b[1], b[2]) + Encoded(a, more)
  {
    hide Group;
    assert (b + more)[3..] == more;
  }
}
