/** The name of a session: its start in milliseconds, in URL-safe Base64 without the pads. */
module SessionId {
  import opened Bytes
  import opened Base64
  import CJson

  const MILLION: int := 1_000_000

  /** sizeof(sessionId) */
  const CAPACITY: nat := 21

  function Stripped(t: seq<Byte>): seq<Byte> {
    if t != [] && t[|t| - 1] == PAD then Stripped(t[..|t| - 1]) else t
  }

  /** The pads put back, as RFC 4648 section 3.2 lets a reader do. */
  function Repadded(t: seq<Byte>): seq<Byte> {
    t + Fill(PAD, (4 - |t| % 4) % 4)
  }

  /** The name of the session that starts at the given nanosecond. */
  function NameOf(start: int): seq<Byte> {
    Stripped(Encoded(UrlSafe, CJson.PrintInt(Quotient(start, MILLION))))
  }

  /** The pads of n encoded bytes. */
  function Pads(n: nat): (k: nat)
    ensures k <= 2
  {
    (3 - n % 3) % 3
  }

  /** The last k characters of a text are pads and no others are. */
  predicate PaddedBy(t: seq<Byte>, k: nat): (r: bool)
    ensures r ==> k <= |t|
  {
    k <= |t| && (forall i :: 0 <= i < |t| - k ==> t[i] != PAD) && t[|t| - k..] == Fill(PAD, k)
  }

  lemma PrefixPlain(g: seq<Byte>, u: seq<Byte>, k: nat)
    requires PaddedBy(u, k) && forall i :: 0 <= i < |g| ==> g[i] != PAD
    ensures PaddedBy(g + u, k)
  {
    assert (g + u)[|g + u| - k..] == u[|u| - k..];
  }

  /** The pads of an encoded text are its last characters, at most two. */
  lemma {:induction false} PadsAreLast(a: Alphabet, s: seq<Byte>)
    ensures PaddedBy(Encoded(a, s), Pads(|s|))
    decreases |s|
  {
    hide Group, PaddedBy;
    if |s| >= 3 {
      PadsAreLast(a, s[3..]);
      GroupPlain(a, s[0], s[1], s[2]);
      assert Pads(|s[3..]|) == Pads(|s|);
      PrefixPlain(Group(a, s[0], s[1], s[2]), Encoded(a, s[3..]), Pads(|s|));
    } else if |s| > 0 {
      GroupPlain(a, s[0], if |s| == 2 then s[1] else 0, 0);
      PlainThenPads(Group(a, s[0], if |s| == 2 then s[1] else 0, 0), 3 - |s|);
    } else {
      PlainThenPads([], 0);
      assert [] + Fill(PAD, 0) == [];
    }
  }

  lemma PlainThenPads(g: seq<Byte>, k: nat)
    requires k <= |g| && forall i :: 0 <= i < |g| ==> g[i] != PAD
    ensures PaddedBy(g[..|g| - k] + Fill(PAD, k), k)
    ensures k == 1 ==> Fill(PAD, k) == [PAD]
    ensures k == 2 ==> Fill(PAD, k) == [PAD, PAD]
  {
    var t := g[..|g| - k] + Fill(PAD, k);
    assert t[|t| - k..] == Fill(PAD, k);
  }

  lemma GroupPlain(a: Alphabet, x: Byte, y: Byte, z: Byte)
    ensures forall i :: 0 <= i < 4 ==> Group(a, x, y, z)[i] != PAD
  {
    hide Char, Index;
    IndexOfChar(a, x / 4);
    IndexOfChar(a, x % 4 * 16 + y / 16);
    IndexOfChar(a, y % 16 * 4 + z / 64);
    IndexOfChar(a, z % 64);
  }

  lemma {:induction false} StrippedIs(core: seq<Byte>, k: nat)
    requires core == [] || core[|core| - 1] != PAD
    ensures Stripped(core + Fill(PAD, k)) == core
    decreases k
  {
    var t := core + Fill(PAD, k);
    if k > 0 {
      assert t[..|t| - 1] == core + Fill(PAD, k - 1);
      StrippedIs(core, k - 1);
    } else {
      assert t == core;
    }
  }

  lemma PadCount(n: nat, k: nat)
    requires n % 4 == 0 && k <= 2 && k <= n
    ensures (4 - (n - k) % 4) % 4 == k
  {}

  lemma EncodedLength(a: Alphabet, s: seq<Byte>)
    ensures |Encoded(a, s)| % 4 == 0
  {
    hide Encoded;
  }

  lemma SplitPads(t: seq<Byte>, k: nat)
    requires PaddedBy(t, k)
    ensures var core := t[..|t| - k];
            t == core + Fill(PAD, k) && (core == [] || core[|core| - 1] != PAD)
  {}

  lemma RepadCore(core: seq<Byte>, k: nat)
    requires (|core| + k) % 4 == 0 && k <= 2
    ensures Repadded(core) == core + Fill(PAD, k)
  {
    PadCount(|core| + k, k);
  }

  lemma RepadStripped(a: Alphabet, s: seq<Byte>)
    ensures Repadded(Stripped(Encoded(a, s))) == Encoded(a, s)
  {
    hide Encoded, Pads, PaddedBy, Repadded, Stripped;
    PadsAreLast(a, s);
    EncodedLength(a, s);
    var t, k := Encoded(a, s), Pads(|s|);
    SplitPads(t, k);
    StrippedIs(t[..|t| - k], k);
    RepadCore(t[..|t| - k], k);
  }

  /** A name with its pads back decodes to the digits of the start in milliseconds, and those to the number. */
  lemma NameRoundTrip(start: int, f: Flags)
    requires start >= 0
    ensures var digits := CJson.Digits(start / 1_000_000);
            && Decode(UrlSafe, f, Repadded(NameOf(start)), [], 0) == Decoded(digits)
            && CJson.ParseDigits(digits, 0) == (start / 1_000_000, [])
  {
    hide Encoded, Decode, Stripped, Repadded;
    var digits := CJson.Digits(start / MILLION);
    RepadStripped(UrlSafe, digits);
    Base64RoundTrip(UrlSafe, f, digits, 0);
    NoWrap(Encoded(UrlSafe, digits));
    CJson.DigitsParse(start / MILLION, 0, []);
    assert digits + [] == digits;
  }

  /** Sessions that start in different milliseconds have different names. */
  lemma NamesDiffer(a: int, b: int)
    requires a >= 0 && b >= 0 && NameOf(a) == NameOf(b)
    ensures a / 1_000_000 == b / 1_000_000
  {
    hide Decode, NameOf, CJson.ParseDigits;
    NameRoundTrip(a, Flags(false, false));
    NameRoundTrip(b, Flags(false, false));
  }

  lemma {:induction false} DigitCount(n: nat, k: nat)
    requires k > 0 && n < CJson.Pow10(k)
    ensures |CJson.Digits(n)| <= k
    decreases k
  {
    if n >= 10 {
      assert CJson.Pow10(k) == 10 * CJson.Pow10(k - 1);
      assert k > 1 by { assert CJson.Pow10(0) == 1; }
      DigitCount(n / 10, k - 1);
    }
  }

  lemma ThirteenDigits(start: int)
    requires 0 <= start < 0x8000_0000_0000_0000
    ensures |CJson.PrintInt(Quotient(start, MILLION))| <= 13
  {
    var p := CJson.Pow10(6);
    assert p == 1_000_000 by { assert CJson.Pow10(3) == 1000; }
    assert CJson.Pow10(9) == 1000_000_000 && CJson.Pow10(11) == 100 * CJson.Pow10(9);
    assert CJson.Pow10(13) == 100 * CJson.Pow10(11);
    DigitCount(start / MILLION, 13);
  }

  /** The loop that cuts the pads off, a terminator in place of each. */
  method CutPads(buf: array<Byte>, len: nat) returns (n: nat)
    requires len < buf.Length
    modifies buf
    ensures n <= len && buf[..n] == Stripped(old(buf[..len]))
  {
    ghost var t := buf[..len];
    n := len;
    assert t == t[..n];
    while n > 0 && buf[n - 1] == PAD
      invariant 0 <= n <= len && buf[..n] == t[..n] && Stripped(t[..n]) == Stripped(t)
    {
      assert t[..n][..n - 1] == t[..n - 1];
      n := n - 1;
      ghost var was := buf[..];
      buf[n] := 0;
      assert buf[..n] == was[..n];
    }
  }

  lemma TotalFits(n: nat)
    requires n <= 13
    ensures Total(n, 0) < CAPACITY
  {}

  /** The first lines of LinkUpdateSessionId: every time a 64-bit count of nanoseconds can hold has a name that fits. */
  method MakeName(start: int) returns (sessionId: seq<Byte>)
    requires 0 <= start < 0x8000_0000_0000_0000
    ensures sessionId == NameOf(start) && |sessionId| < CAPACITY
  {
    hide CJson.PrintInt, Encoded, Total, Wrapped, Stripped, Quotient;
    var str := CJson.PrintInt(Quotient(start, MILLION));
    ThirteenDigits(start);
    TotalFits(|str|);
    var buf := new Byte[CAPACITY];
    var n, rc := Encode(UrlSafe, str, buf, CAPACITY, 0);
    NoWrap(Encoded(UrlSafe, str));
    assert buf[..n] == Encoded(UrlSafe, str);
    n := CutPads(buf, n);
    sessionId := buf[..n];
  }
}
