/**
 Base64 with line wrapping, in the standard alphabet and in the URL-safe one.
 */
module Base64 {
  import opened Bytes

  const PAD: Byte := 61
  const CRLF: seq<Byte> := [13, 10]

  datatype Alphabet = Standard | UrlSafe

  /** RFC 4648 sections 4 and 5: the alphabets differ in their last two characters. */
  function Char(a: Alphabet, i: nat): Byte
    requires i < 64
  {
    if i < 26 then 65 + i
    else if i < 52 then 71 + i
    else if i < 62 then i - 4
    else if i == 62 then (if a == Standard then 43 else 45)
    else if a == Standard then 47 else 95
  }

  /** The decoding tables; the URL-safe one still takes the two standard characters. */
  function Index(a: Alphabet, c: Byte): (r: Option<nat>)
    ensures r.Some? ==> r.value < 64
  {
    if 65 <= c <= 90 then Some(c - 65)
    else if 97 <= c <= 122 then Some(c - 71)
    else if 48 <= c <= 57 then Some(c + 4)
    else if c == 43 || (a == UrlSafe && c == 45) then Some(62)
    else if c == 47 || (a == UrlSafe && c == 95) then Some(63)
    else None
  }

  lemma IndexOfChar(a: Alphabet, i: nat)
    requires i < 64
    ensures Index(a, Char(a, i)) == Some(i)
    ensures Char(a, i) != PAD && Char(a, i) != 13 && Char(a, i) != 10
  {}

  /** The characters in order, RFC 4648 tables 1 and 2. */
  function Characters(a: Alphabet): (r: seq<Byte>)
    ensures |r| == 64
  {
    Text("ABCDEFGHIJKLM") + Text("NOPQRSTUVWXYZ") + Text("abcdefghijklm") + Text("nopqrstuvwxyz") + Text("0123456789")
    + if a == Standard then Text("+/") else Text("-_")
  }

  lemma Capitals(i: nat)
    requires i < 13
    ensures Text("ABCDEFGHIJKLM")[i] == 65 + i && Text("NOPQRSTUVWXYZ")[i] == 78 + i
  {}

  lemma Smalls(i: nat)
    requires i < 13
    ensures Text("abcdefghijklm")[i] == 97 + i && Text("nopqrstuvwxyz")[i] == 110 + i
  {}

  lemma Numerals(i: nat)
    requires i < 10
    ensures Text("0123456789")[i] == 48 + i
  {}

  lemma LastTwo()
    ensures Text("+/") == [43, 47] && Text("-_") == [45, 95]
  {}

  /** Six pieces in a row, the first four of 13 and the fifth of 10. */
  lemma SixPieces<T>(a: seq<T>, b: seq<T>, c: seq<T>, d: seq<T>, e: seq<T>, f: seq<T>, i: nat)
    requires |a| == |b| == |c| == |d| == 13 && |e| == 10 && i < 62 + |f|
    ensures (a + b + c + d + e + f)[i]
         == if i < 13 then a[i] else if i < 26 then b[i - 13] else if i < 39 then c[i - 26]
            else if i < 52 then d[i - 39] else if i < 62 then e[i - 52] else f[i - 62]
  {}

  lemma CharactersAre(a: Alphabet, i: nat)
    requires i < 64
    ensures Char(a, i) == Characters(a)[i]
  {
    hide Text;
    SixPieces(Text("ABCDEFGHIJKLM"), Text("NOPQRSTUVWXYZ"), Text("abcdefghijklm"), Text("nopqrstuvwxyz"),
              Text("0123456789"),
              if a == Standard then Text("+/") else Text("-_"), i);
    if i < 26 {
      Capitals(i % 13);
    } else if i < 52 {
      Smalls(i % 13);
    } else if i < 62 {
      Numerals(i - 52);
    } else {
      LastTwo();
    }
  }

  // ---- encoding

  /** Three bytes as four characters. */
  function Group(a: Alphabet, x: Byte, y: Byte, z: Byte): (r: seq<Byte>)
    ensures |r| == 4
  {
    [Char(a, x / 4), Char(a, x % 4 * 16 + y / 16), Char(a, y % 16 * 4 + z / 64), Char(a, z % 64)]
  }

  function Encoded(a: Alphabet, s: seq<Byte>): (r: seq<Byte>)
    ensures |r| == (|s| + 2) / 3 * 4
  {
    if |s| >= 3 then Group(a, s[0], s[1], s[2]) + Encoded(a, s[3..])
    else if |s| == 2 then Group(a, s[0], s[1], 0)[..3] + [PAD]
    else if |s| == 1 then Group(a, s[0], 0, 0)[..2] + [PAD, PAD]
    else []
  }

  /** The text in lines of lineLen characters, with len characters already in the first; 0 is one line. */
  function Wrapped(t: seq<Byte>, lineLen: nat, len: nat): seq<Byte>
    requires len <= lineLen || lineLen == 0
    decreases |t|, len
  {
    if t == [] then []
    else if lineLen > 0 && len == lineLen then CRLF + Wrapped(t, lineLen, 0)
    else [t[0]] + Wrapped(t[1..], lineLen, if lineLen == 0 then 0 else len + 1)
  }

  /** The length b64_encode_ predicts. */
  function Total(n: nat, lineLen: nat): nat {
    var total := (n + 2) / 3 * 4;
    if lineLen == 0 then total
    else
      var numLines := (total + (lineLen - 1)) / lineLen;
      total + 2 * (if numLines == 0 then 0 else numLines - 1)
  }

  /** Wrapping a whole line, then the rest: no line end after the last line. */
  lemma {:induction false} WrapLine(t: seq<Byte>, lineLen: nat, len: nat)
    requires 0 < lineLen && len <= lineLen
    ensures Wrapped(t, lineLen, len) ==
            if |t| <= lineLen - len then t else t[..lineLen - len] + (CRLF + Wrapped(t[lineLen - len..], lineLen, 0))
    decreases lineLen - len
  {
    if t != [] && len < lineLen {
      WrapLine(t[1..], lineLen, len + 1);
      assert t == [t[0]] + t[1..];
      if |t| > lineLen - len {
        var k := lineLen - len;
        assert t[1..][k - 1..] == t[k..];
        assert t[..k] == [t[0]] + t[1..][..k - 1];
        assert [t[0]] + (t[1..][..k - 1] + (CRLF + Wrapped(t[k..], lineLen, 0)))
               == t[..k] + (CRLF + Wrapped(t[k..], lineLen, 0));
      }
    } else if t != [] {
      assert t[..0] + (CRLF + Wrapped(t[0..], lineLen, 0)) == CRLF + Wrapped(t, lineLen, 0);
    }
  }

  lemma {:induction false} NoWrap(t: seq<Byte>)
    ensures Wrapped(t, 0, 0) == t
  {
    if t != [] {
      NoWrap(t[1..]);
    }
  }

  lemma {:induction false} WrappedLength(t: seq<Byte>, lineLen: nat)
    requires lineLen > 0
    ensures |Wrapped(t, lineLen, 0)| == |t| + 2 * (if t == [] then 0 else (|t| - 1) / lineLen)
    decreases |t|
  {
    hide Wrapped;
    WrapLine(t, lineLen, 0);
    if |t| > lineLen {
      WrappedLength(t[lineLen..], lineLen);
      OneLineLess(|t| - 1, lineLen);
    } else if t != [] {
      Divides(|t| - 1, lineLen, 0, |t| - 1);
    }
  }

  lemma OneLineLess(n: nat, k: nat)
    requires 0 < k <= n
    ensures n / k == 1 + (n - k) / k
  {
    var q, r := (n - k) / k, (n - k) % k;
    assert n == (q + 1) * k + r;
    Divides(n, k, q + 1, r);
  }

  lemma Divides(n: nat, k: nat, q: nat, r: nat)
    requires 0 < k && n == q * k + r && r < k
    ensures n / k == q
  {
    var d, m := n / k, n % k;
    assert n == d * k + m;
    Distribute(d, q, k);
    AtLeastOne(d - q, k);
  }

  lemma Distribute(d: int, q: int, k: int)
    ensures (d - q) * k == d * k - q * k
  {}

  lemma AtLeastOne(x: int, k: nat)
    ensures x >= 1 ==> x * k >= k
    ensures x <= -1 ==> x * k + k <= 0
  {
    assert x * k == k + (x - 1) * k;
    assert x * k == -((-x) * k) && (-x) * k == k + (-x - 1) * k;
  }

  /** The predicted length is that of the wrapped text. */
  lemma TotalIsLength(a: Alphabet, s: seq<Byte>, lineLen: nat)
    ensures |Wrapped(Encoded(a, s), lineLen, 0)| == Total(|s|, lineLen)
  {
    hide Encoded;
    var t := Encoded(a, s);
    if lineLen == 0 {
      NoWrap(t);
    } else {
      WrappedLength(t, lineLen);
      if t != [] {
        OneLineLess(|t| + lineLen - 1, lineLen);
      } else {
        assert (lineLen - 1) / lineLen == 0;
      }
    }
  }

  /** One group of four goes into the current line whole, for lines of a multiple of four. */
  lemma WrapGroup(g: seq<Byte>, t: seq<Byte>, lineLen: nat, len: nat)
    requires |g| == 4 && (lineLen == 0 || len + 4 <= lineLen)
    ensures Wrapped(g + t, lineLen, len) == g + Wrapped(t, lineLen, if lineLen == 0 then 0 else len + 4)
  {
    var step := if lineLen == 0 then 0 else 1;
    assert (g + t)[1..] == g[1..] + t;
    assert (g[1..] + t)[1..] == g[2..] + t;
    assert (g[2..] + t)[1..] == g[3..] + t;
    assert (g[3..] + t)[1..] == t;
    assert Wrapped(g[3..] + t, lineLen, len + 3 * step) == [g[3]] + Wrapped(t, lineLen, len + 4 * step);
    assert Wrapped(g[2..] + t, lineLen, len + 2 * step) == [g[2]] + Wrapped(g[3..] + t, lineLen, len + 3 * step);
    assert Wrapped(g[1..] + t, lineLen, len + step) == [g[1]] + Wrapped(g[2..] + t, lineLen, len + 2 * step);
    assert g == [g[0], g[1], g[2], g[3]];
  }

  datatype Rc = Ok | InsufficientBuffer | DataError

  /** What is still to be written: the rest of the input, in a line of len characters. */
  function Rest(a: Alphabet, s: seq<Byte>, i: nat, lineLen: nat, len: nat): seq<Byte>
    requires i <= |s| && (len <= lineLen || lineLen == 0)
  {
    Wrapped(Encoded(a, s[i..]), lineLen, len)
  }

  /** One turn of the loop: a group, and a line end if the line is full and more follows. */
  lemma ChunkStep(a: Alphabet, s: seq<Byte>, i: nat, lineLen: nat, len: nat)
    requires i + 3 <= |s| && lineLen % 4 == 0 && len % 4 == 0 && (lineLen == 0 ==> len == 0)
    requires (lineLen > 0 ==> len < lineLen)
    ensures var g := Group(a, s[i], s[i + 1], s[i + 2]);
            if lineLen > 0 && len + 4 == lineLen && i + 3 < |s| then
              Rest(a, s, i, lineLen, len) == g + (CRLF + Rest(a, s, i + 3, lineLen, 0))
            else
              && (lineLen > 0 ==> len + 4 <= lineLen)
              && Rest(a, s, i, lineLen, len) == g + Rest(a, s, i + 3, lineLen, if lineLen == 0 then 0 else len + 4)
  {
    hide Group, Wrapped, Encoded;
    var g := Group(a, s[i], s[i + 1], s[i + 2]);
    EncodedStep(a, s, i);
    WrapGroup(g, Encoded(a, s[i + 3..]), lineLen, len);
    if lineLen > 0 && len + 4 == lineLen && i + 3 < |s| {
      LineEnd(Encoded(a, s[i + 3..]), lineLen);
    }
  }

  lemma EncodedStep(a: Alphabet, s: seq<Byte>, i: nat)
    requires i + 3 <= |s|
    ensures Encoded(a, s[i..]) == Group(a, s[i], s[i + 1], s[i + 2]) + Encoded(a, s[i + 3..])
  {
    assert s[i..][3..] == s[i + 3..];
  }

  lemma LineEnd(t: seq<Byte>, lineLen: nat)
    requires t != [] && lineLen > 0
    ensures Wrapped(t, lineLen, lineLen) == CRLF + Wrapped(t, lineLen, 0)
  {}

  /** The last one or two bytes: a group of them and zeros, its tail overwritten with pads. */
  method EncodeTail(a: Alphabet, s: seq<Byte>, dest: array<Byte>, p: nat)
    requires 1 <= |s| <= 2 && p + 4 <= dest.Length
    modifies dest
    ensures dest[..] == Splice(old(dest[..]), p, Encoded(a, s))
  {
    hide Char, Group;
    var dummy := if |s| == 1 then [s[0], 0, 0] else [s[0], s[1], 0];
    ghost var was := dest[..];
    Memcpy(dest, p, Group(a, dummy[0], dummy[1], dummy[2]));
    var q, n := p + 1 + |s|, |s|;
    while n != 3
      invariant |s| <= n <= 3 && q == p + 1 + n
      invariant dest[..] == Splice(was, p, Group(a, dummy[0], dummy[1], dummy[2])[..1 + |s|] + Fill(PAD, n - |s|)
                                           + Group(a, dummy[0], dummy[1], dummy[2])[1 + n..])
    {
      dest[q] := PAD;
      q, n := q + 1, n + 1;
    }
  }

  lemma RestEmpty(a: Alphabet, s: seq<Byte>, i: nat, lineLen: nat, len: nat)
    requires i <= |s| && (len <= lineLen || lineLen == 0)
    ensures Rest(a, s, i, lineLen, len) == [] <==> i == |s|
  {
    hide Group;
    assert s[i..] == [] <==> i == |s|;
  }

  /** memcpy at p, as the text written so far sees it. */
  method Put(dest: array<Byte>, p: nat, d: seq<Byte>) returns (q: nat)
    requires p + |d| <= dest.Length
    modifies dest
    ensures q == p + |d| && dest[..q] == old(dest[..p]) + d && dest[q..] == old(dest[..])[q..]
  {
    ghost var was := dest[..];
    Memcpy(dest, p, d);
    SplicePrefix(was, p, d);
    q := p + |d|;
  }

  /** Where the loop stands: the text so far, followed by what is still to be written, is the whole text. */
  ghost predicate Progress(a: Alphabet, src: seq<Byte>, out: seq<Byte>, lineLen: nat, i: nat, len: nat) {
    && i <= |src| && lineLen % 4 == 0 && len % 4 == 0 && (lineLen == 0 ==> len == 0)
    && (lineLen > 0 ==> len < lineLen || (i == |src| && len == lineLen))
    && Column(i, |src|, lineLen, len)
    && out + Rest(a, src, i, lineLen, len) == Rest(a, src, 0, lineLen, 0)
  }

  /** The lines before the current one are full, and the last one is not empty. */
  predicate Column(i: nat, n: nat, lineLen: nat, len: nat) {
    i % 3 == 0 && (lineLen > 0 ==> len <= i / 3 * 4 && (i / 3 * 4 - len) % lineLen == 0 && (0 < i == n ==> len > 0))
  }

  /** Whether the text is followed by a line end of its own: its last line is full and the buffer longer than it. */
  predicate LineEndBehind(n: nat, lineLen: nat, destLen: nat) {
    lineLen > 0 && n > 0 && n % 3 == 0 && n / 3 * 4 % lineLen == 0 && destLen > Total(n, lineLen)
  }

  lemma FullLine(x: nat, m: nat, k: nat)
    requires 0 < m <= k && m <= x && (x - m) % k == 0
    ensures x % k == 0 <==> m == k
  {
    var q := (x - m) / k;
    assert x - m == q * k;
    if m == k {
      assert x == (q + 1) * k + 0;
      Divides(x, k, q + 1, 0);
      assert x % k == x - x / k * k;
    } else {
      Divides(x, k, q, m);
      assert x % k == x - x / k * k;
    }
  }

  /** The next column, after a group and perhaps a line end. */
  lemma NextColumn(i: nat, n: nat, lineLen: nat, len: nat)
    requires Column(i, n, lineLen, len) && i + 3 <= n && (lineLen > 0 ==> len + 4 <= lineLen)
    ensures Column(i + 3, n, lineLen, if lineLen == 0 then 0 else len + 4)
    ensures lineLen > 0 && len + 4 == lineLen && i + 3 < n ==> Column(i + 3, n, lineLen, 0)
  {
    assert (i + 3) / 3 * 4 == i / 3 * 4 + 4;
    if lineLen > 0 && len + 4 == lineLen {
      FullLine(i / 3 * 4 + 4, len + 4, lineLen);
    }
  }

  /**
   One turn of the loop. Behind the last group a line end is written only in a buffer that is longer than the text.
   */
  method EncodeGroup(a: Alphabet, src: seq<Byte>, dest: array<Byte>, destLen: nat, lineLen: nat, i: nat, p: nat,
                     len: nat)
    returns (q: nat, l: nat, ghost more: bool)
    requires i + 3 <= |src| && p <= destLen <= dest.Length && |Rest(a, src, 0, lineLen, 0)| <= destLen
    requires Progress(a, src, dest[..p], lineLen, i, len)
    requires i + 3 == |src| && len + 4 == lineLen && |Rest(a, src, 0, lineLen, 0)| < destLen ==>
               |Rest(a, src, 0, lineLen, 0)| + 2 <= dest.Length
    modifies dest
    ensures more <==> i + 3 == |src| && len + 4 == lineLen && |Rest(a, src, 0, lineLen, 0)| < destLen
    ensures !more ==> p <= q <= destLen && Progress(a, src, dest[..q], lineLen, i + 3, l)
    ensures !more && i + 3 == |src| && lineLen > 0 && l == lineLen ==> |Rest(a, src, 0, lineLen, 0)| == destLen
    ensures more ==> p <= q <= dest.Length && dest[..q] == Rest(a, src, 0, lineLen, 0) + CRLF
    ensures dest[q..] == old(dest[..])[q..]
  {
    hide Group, Wrapped, Encoded, Rest, Column;
    ghost var out := dest[..p];
    var g := Group(a, src[i], src[i + 1], src[i + 2]);
    ChunkStep(a, src, i, lineLen, len);
    NextColumn(i, |src|, lineLen, len);
    l := if lineLen == 0 then 0 else len + 4;
    RestEmpty(a, src, i + 3, lineLen, l);
    ghost var size := |Rest(a, src, 0, lineLen, 0)|;
    assert p + |Rest(a, src, i, lineLen, len)| == size;
    more := i + 3 == |src| && len + 4 == lineLen && size < destLen;
    q := Put(dest, p, g);
    if len + 4 == lineLen && q != destLen {
      ghost var rest := Rest(a, src, i + 3, lineLen, 0);
      RestEmpty(a, src, i + 3, lineLen, 0);
      assert out + g + CRLF + rest == out + (g + (CRLF + rest));
      assert more ==> out + g == Rest(a, src, 0, lineLen, 0);
      q := Put(dest, q, CRLF);
      l := 0;
    } else {
      ghost var rest := Rest(a, src, i + 3, lineLen, l);
      assert out + g + rest == out + (g + rest);
    }
  }

  /**
   b64_encode_ and urlsafe_b64_encode_: an exact buffer is filled to its last byte. In a longer one a text whose last
   line is full gets a line end behind it, though the returned length does not count it, and though one byte more
   than the text may be all there is.
   */
  method Encode(a: Alphabet, src: seq<Byte>, dest: array<Byte>, destLen: nat, lineLen: nat) returns (ret: nat, rc: Rc)
    requires lineLen % 4 == 0 && destLen <= dest.Length
    requires LineEndBehind(|src|, lineLen, destLen) ==> Total(|src|, lineLen) + 2 <= dest.Length
    modifies dest
    ensures destLen < Total(|src|, lineLen) ==> ret == 0 && rc == InsufficientBuffer && dest[..] == old(dest[..])
    ensures destLen >= Total(|src|, lineLen) ==>
              && ret == Total(|src|, lineLen) == |Wrapped(Encoded(a, src), lineLen, 0)| && rc == Ok
              && dest[..] == Splice(old(dest[..]), 0, Wrapped(Encoded(a, src), lineLen, 0)
                                                      + if LineEndBehind(|src|, lineLen, destLen) then CRLF else [])
  {
    hide Group, Wrapped, Encoded, Total, Rest, Column;
    var total := Total(|src|, lineLen);
    if destLen < total {
      return 0, InsufficientBuffer;
    }
    ghost var was, whole := dest[..], Rest(a, src, 0, lineLen, 0);
    WholeText(a, src, lineLen);
    var i, p, len := 0, 0, 0;
    ghost var more := false;
    assert dest[..0] + whole == whole;
    FirstColumn(|src|, lineLen);
    while |src| - i >= 3
      invariant 0 <= p <= dest.Length && i <= |src| && dest[p..] == was[p..]
      invariant more ==> i == |src| && LineEndBehind(|src|, lineLen, destLen) && dest[..p] == whole + CRLF
      invariant !more ==> p <= destLen && Progress(a, src, dest[..p], lineLen, i, len)
      invariant !more && i == |src| && lineLen > 0 && len == lineLen ==> total == destLen
      decreases |src| - i
    {
      ghost var before, start := dest[..], p;
      LastGroup(i, |src|, lineLen, len, destLen);
      p, len, more := EncodeGroup(a, src, dest, destLen, lineLen, i, p, len);
      assert before[p..] == before[start..][p - start..] && was[p..] == was[start..][p - start..];
      i := i + 3;
    }
    ghost var out := dest[..p];
    if !more {
      TextLeft(a, src, out, lineLen, i, len);
      NoLineEnd(i, |src|, lineLen, len, destLen);
      assert whole + [] == whole;
    }
    if i < |src| {
      EncodeTail(a, src[i..], dest, p);
      assert dest[..] == out + Encoded(a, src[i..]) + was[total..];
    } else {
      assert out == if more then whole + CRLF else whole;
      assert dest[..] == out + was[p..];
    }
    ret, rc := total, Ok;
  }

  /** What is left to write after the loop is the last group. */
  lemma TextLeft(a: Alphabet, src: seq<Byte>, out: seq<Byte>, lineLen: nat, i: nat, len: nat)
    requires Progress(a, src, out, lineLen, i, len) && i <= |src| < i + 3
    ensures out + Encoded(a, src[i..]) == Rest(a, src, 0, lineLen, 0)
    ensures i == |src| ==> out == Rest(a, src, 0, lineLen, 0)
  {
    hide Encoded, Rest, Column;
    Remainder(a, src, i, lineLen, len);
    assert out + [] == out;
  }

  lemma FirstColumn(n: nat, lineLen: nat)
    ensures Column(0, n, lineLen, 0)
  {}

  /** The last group completes its line exactly when the text is a number of full lines. */
  lemma LastGroup(i: nat, n: nat, lineLen: nat, len: nat, destLen: nat)
    requires Column(i, n, lineLen, len) && i + 3 <= n && (lineLen > 0 ==> len + 4 <= lineLen)
    requires destLen >= Total(n, lineLen)
    ensures i + 3 == n && lineLen > 0 ==>
              (len + 4 == lineLen && destLen > Total(n, lineLen) <==> LineEndBehind(n, lineLen, destLen))
  {
    hide Total;
    if i + 3 == n && lineLen > 0 {
      assert n / 3 * 4 == i / 3 * 4 + 4;
      FullLine(n / 3 * 4, len + 4, lineLen);
    }
  }

  lemma NoLineEnd(i: nat, n: nat, lineLen: nat, len: nat, destLen: nat)
    requires Column(i, n, lineLen, len) && i <= n < i + 3 && (lineLen > 0 ==> len <= lineLen)
    requires i == n && lineLen > 0 && len == lineLen ==> destLen == Total(n, lineLen)
    ensures !LineEndBehind(n, lineLen, destLen)
  {
    hide Total;
    if i == n && lineLen > 0 && n > 0 {
      FullLine(n / 3 * 4, len, lineLen);
    }
  }

  lemma WholeText(a: Alphabet, src: seq<Byte>, lineLen: nat)
    ensures Rest(a, src, 0, lineLen, 0) == Wrapped(Encoded(a, src), lineLen, 0)
    ensures |Rest(a, src, 0, lineLen, 0)| == Total(|src|, lineLen)
  {
    hide Encoded, Wrapped, Total;
    assert src[0..] == src;
    TotalIsLength(a, src, lineLen);
  }

  lemma NothingToWrap(lineLen: nat, len: nat)
    requires len <= lineLen || lineLen == 0
    ensures Wrapped([], lineLen, len) == []
  {}

  /** Less than a group is left: it needs no line end. */
  lemma Remainder(a: Alphabet, src: seq<Byte>, i: nat, lineLen: nat, len: nat)
    requires i <= |src| < i + 3 && lineLen % 4 == 0 && len % 4 == 0 && (lineLen == 0 ==> len == 0)
    requires lineLen > 0 ==> len < lineLen || (i == |src| && len == lineLen)
    ensures Rest(a, src, i, lineLen, len) == Encoded(a, src[i..])
    ensures i == |src| ==> Encoded(a, src[i..]) == []
  {
    hide Wrapped, Group;
    var t := Encoded(a, src[i..]);
    if i < |src| {
      WrapGroup(t, [], lineLen, len);
      NothingToWrap(lineLen, if lineLen == 0 then 0 else len + 4);
      assert t + [] == t;
    } else {
      NothingToWrap(lineLen, len);
    }
  }

  // ---- decoding

  datatype Flags = Flags(stopOnUnknown: bool, stopOnSpace: bool)

  /** The bytes, or the text from the first character that stops the decoder. */
  datatype Result = Decoded(bytes: seq<Byte>) | Bad(at: seq<Byte>)

  function Prepend(b: seq<Byte>, r: Result): Result {
    match r
    case Decoded(bytes) => Decoded(b + bytes)
    case Bad(_) => r
  }

  /** The bytes of four indexes, fewer for one or two pads. */
  function Triple(idx: seq<nat>, pads: nat): (r: seq<Byte>)
    requires |idx| == 4 && forall k :: 0 <= k < 4 ==> idx[k] < 64
    ensures 1 <= |r| <= 3
  {
    [idx[0] * 4 + idx[1] / 16]
    + (if pads == 2 then []
       else [idx[1] % 16 * 16 + idx[2] / 4] + (if pads == 1 then [] else [idx[2] % 4 * 64 + idx[3]]))
  }

  /** Whether a character outside the alphabet is skipped: line ends always are. */
  predicate Skipped(f: Flags, c: Byte) {
    c == 13 || c == 10 || (if c == 32 || c == 9 || c == 8 || c == 11 then !f.stopOnSpace else !f.stopOnUnknown)
  }

  predicate Indexes(idx: seq<nat>) {
    |idx| < 4 && forall k :: 0 <= k < |idx| ==> idx[k] < 64
  }

  /** Decoding from a point where idx holds the indexes of the group under way and pads its pads. */
  function Decode(a: Alphabet, f: Flags, s: seq<Byte>, idx: seq<nat>, pads: nat): Result
    requires Indexes(idx)
    decreases |s|
  {
    if s == [] then Decoded([])
    else if s[0] != PAD && Index(a, s[0]) == None then
      if Skipped(f, s[0]) then Decode(a, f, s[1..], idx, pads) else Bad(s)
    else
      var more := idx + [if s[0] == PAD then 0 else Index(a, s[0]).value];
      var n := if s[0] == PAD then pads + 1 else 0;
      if |more| < 4 then Decode(a, f, s[1..], more, n)
      else if n != 0 then Decoded(Triple(more, n))
      else Prepend(Triple(more, 0), Decode(a, f, s[1..], [], 0))
  }

  lemma PrependNothing(r: Result)
    ensures Prepend([], r) == r
  {
    assert r.Decoded? ==> [] + r.bytes == r.bytes;
  }

  /** One character, behind the bytes already written. */
  lemma DecodeStep(a: Alphabet, f: Flags, src: seq<Byte>, at: nat, idx: seq<nat>, pads: nat, out: seq<Byte>)
    requires at < |src| && Indexes(idx)
    ensures var c, rest := src[at], src[at + 1..];
            Prepend(out, Decode(a, f, src[at..], idx, pads)) ==
            if c != PAD && Index(a, c) == None then
              (if Skipped(f, c) then Prepend(out, Decode(a, f, rest, idx, pads)) else Bad(src[at..]))
            else
              var more := idx + [if c == PAD then 0 else Index(a, c).value];
              var n := if c == PAD then pads + 1 else 0;
              if |more| < 4 then Prepend(out, Decode(a, f, rest, more, n))
              else if n != 0 then Decoded(out + Triple(more, n))
              else Prepend(out + Triple(more, 0), Decode(a, f, rest, [], 0))
  {
    hide Index, Skipped, Triple;
    assert src[at..][1..] == src[at + 1..];
    var r := Decode(a, f, src[at + 1..], [], 0);
    if |idx| == 3 && r.Decoded? && (src[at] == PAD || Index(a, src[at]).Some?) {
      var t := Triple(idx + [if src[at] == PAD then 0 else Index(a, src[at]).value], 0);
      assert out + (t + r.bytes) == out + t + r.bytes;
    }
  }

  lemma DecodeEnd(a: Alphabet, f: Flags, idx: seq<nat>, pads: nat, out: seq<Byte>)
    requires Indexes(idx)
    ensures Prepend(out, Decode(a, f, [], idx, pads)) == Decoded(out)
  {
    assert out + [] == out;
  }

  /** b64_decode_ and urlsafe_b64_decode_ */
  method DecodeText(a: Alphabet, src: seq<Byte>, dest: array<Byte>, destSize: nat, f: Flags)
    returns (ret: nat, rc: Rc, badChar: Option<nat>)
    requires destSize <= dest.Length
    modifies dest
    ensures destSize < (|src| + 3) / 4 * 3 ==> ret == 0 && rc == InsufficientBuffer && badChar == None
    ensures destSize >= (|src| + 3) / 4 * 3 ==>
              match Decode(a, f, src, [], 0)
              case Decoded(bytes) => rc == Ok && badChar == None && ret == |bytes| <= destSize && dest[..ret] == bytes
              case Bad(at) => rc == DataError && ret == 0 && badChar == Some(|src| - |at|)
  {
    hide Decode, Index, Triple, Skipped;
    var wholeChunks, remainderBytes := |src| / 4, |src| % 4;
    var maxTotal := (wholeChunks + (if remainderBytes != 0 then 1 else 0)) * 3;
    if destSize < maxTotal {
      return 0, InsufficientBuffer, None;
    }
    var begin, numPads := 0, 0;
    var indexes: seq<nat> := [];
    var q := 0;
    assert src[0..] == src;
    PrependNothing(Decode(a, f, src, [], 0));
    while begin < |src|
      invariant 0 <= begin <= |src| && 0 <= q && Indexes(indexes)
      invariant 4 * q + 3 * |indexes| <= 3 * begin
      invariant Decode(a, f, src, [], 0) == Prepend(dest[..q], Decode(a, f, src[begin..], indexes, numPads))
    {
      var ch := src[begin];
      DecodeStep(a, f, src, begin, indexes, numPads, dest[..q]);
      var ix := Index(a, ch);
      begin := begin + 1;
      if ch != PAD && ix == None {
        if !Skipped(f, ch) {
          return 0, DataError, Some(begin - 1);
        }
      } else {
        indexes := indexes + [if ch == PAD then 0 else ix.value];
        numPads := if ch == PAD then numPads + 1 else 0;
        if |indexes| == 4 {
          ghost var out := dest[..q];
          q := Put(dest, q, Triple(indexes, numPads));
          if numPads != 0 {
            return q, Ok, None;
          }
          indexes := [];
        }
      }
    }
    assert src[begin..] == [];
    DecodeEnd(a, f, indexes, numPads, dest[..q]);
    ret, rc, badChar := q, Ok, None;
  }

  // ---- decoding undoes encoding

  /** The text without its line ends. */
  function Unwrapped(s: seq<Byte>): seq<Byte> {
    if s == [] then [] else (if s[0] == 13 || s[0] == 10 then [] else [s[0]]) + Unwrapped(s[1..])
  }

  lemma {:induction false} DecodeUnwrapped(a: Alphabet, f: Flags, s: seq<Byte>, idx: seq<nat>, pads: nat)
    requires Indexes(idx)
    ensures Decode(a, f, s, idx, pads).Decoded? ==> Decode(a, f, Unwrapped(s), idx, pads) == Decode(a, f, s, idx, pads)
    ensures Decode(a, f, Unwrapped(s), idx, pads).Decoded? ==>
            Decode(a, f, Unwrapped(s), idx, pads) == Decode(a, f, s, idx, pads)
    decreases |s|
  {
    hide Triple;
    if s != [] {
      var u, c := Unwrapped(s), s[0];
      if c == 13 || c == 10 {
        assert u == Unwrapped(s[1..]);
        DecodeUnwrapped(a, f, s[1..], idx, pads);
      } else {
        assert u[0] == c && u[1..] == Unwrapped(s[1..]);
        if c != PAD && Index(a, c) == None {
          DecodeUnwrapped(a, f, s[1..], idx, pads);
        } else {
          var more := idx + [if c == PAD then 0 else Index(a, c).value];
          if |more| < 4 {
            DecodeUnwrapped(a, f, s[1..], more, if c == PAD then pads + 1 else 0);
          } else {
            DecodeUnwrapped(a, f, s[1..], [], 0);
          }
        }
      }
    }
  }

  predicate Plain(s: seq<Byte>) {
    forall i :: 0 <= i < |s| ==> s[i] != 13 && s[i] != 10
  }

  lemma {:induction false} UnwrapWrapped(t: seq<Byte>, lineLen: nat, len: nat)
    requires Plain(t) && (len <= lineLen || lineLen == 0)
    ensures Unwrapped(Wrapped(t, lineLen, len)) == t
    decreases |t|, len
  {
    if t != [] {
      if lineLen > 0 && len == lineLen {
        var w := Wrapped(t, lineLen, 0);
        UnwrapWrapped(t, lineLen, 0);
        assert (CRLF + w)[1..] == [10] + w && ([10] + w)[1..] == w;
      } else {
        var w := Wrapped(t[1..], lineLen, if lineLen == 0 then 0 else len + 1);
        UnwrapWrapped(t[1..], lineLen, if lineLen == 0 then 0 else len + 1);
        assert ([t[0]] + w)[1..] == w;
      }
    }
  }

  /** The bits of three bytes, cut in six and put together again. */
  lemma Regroup(x: Byte, y: Byte, z: Byte)
    ensures x / 4 * 4 + (x % 4 * 16 + y / 16) / 16 == x
    ensures (x % 4 * 16 + y / 16) % 16 * 16 + (y % 16 * 4 + z / 64) / 4 == y
    ensures (y % 16 * 4 + z / 64) % 4 * 64 + z % 64 == z
  {}

  /** Four characters of the alphabet decode to the three bytes they code. */
  lemma DecodeGroup(a: Alphabet, f: Flags, x: Byte, y: Byte, z: Byte, rest: seq<Byte>)
    ensures Decode(a, f, Group(a, x, y, z) + rest, [], 0) == Prepend([x, y, z], Decode(a, f, rest, [], 0))
  {
    hide Index, Char, Skipped;
    var i0, i1, i2, i3 := x / 4, x % 4 * 16 + y / 16, y % 16 * 4 + z / 64, z % 64;
    IndexOfChar(a, i0);
    IndexOfChar(a, i1);
    IndexOfChar(a, i2);
    IndexOfChar(a, i3);
    FourSteps(a, f, Group(a, x, y, z), [i0, i1, i2, i3], rest);
    Regroup(x, y, z);
    assert Triple([i0, i1, i2, i3], 0) == [x, y, z];
  }

  lemma FourSteps(a: Alphabet, f: Flags, g: seq<Byte>, idx: seq<nat>, rest: seq<Byte>)
    requires |g| == 4 && |idx| == 4
    requires forall k :: 0 <= k < 4 ==> g[k] != PAD && Index(a, g[k]) == Some(idx[k]) && idx[k] < 64
    ensures Decode(a, f, g + rest, [], 0) == Prepend(Triple(idx, 0), Decode(a, f, rest, [], 0))
  {
    hide Index, Skipped, Triple;
    assert (g + rest)[1..] == g[1..] + rest && (g[1..] + rest)[1..] == g[2..] + rest;
    assert (g[2..] + rest)[1..] == g[3..] + rest && (g[3..] + rest)[1..] == rest;
    assert [] + [idx[0]] == idx[..1] && idx[..1] + [idx[1]] == idx[..2] && idx[..2] + [idx[2]] == idx[..3]
           && idx[..3] + [idx[3]] == idx;
    assert Decode(a, f, g[3..] + rest, idx[..3], 0) == Prepend(Triple(idx, 0), Decode(a, f, rest, [], 0));
    assert Decode(a, f, g[2..] + rest, idx[..2], 0) == Decode(a, f, g[3..] + rest, idx[..3], 0);
    assert Decode(a, f, g[1..] + rest, idx[..1], 0) == Decode(a, f, g[2..] + rest, idx[..2], 0);
  }

  lemma OnePad(a: Alphabet, f: Flags, g: seq<Byte>, idx: seq<nat>)
    requires |g| == 4 && |idx| == 3
    requires forall k :: 0 <= k < 3 ==> g[k] != PAD && Index(a, g[k]) == Some(idx[k]) && idx[k] < 64
    requires g[3] == PAD
    ensures Decode(a, f, g, [], 0) == Decoded(Triple(idx + [0], 1))
  {
    hide Index, Skipped, Triple;
    assert g[1..][1..] == g[2..] && g[2..][1..] == g[3..];
    assert [] + [idx[0]] == idx[..1] && idx[..1] + [idx[1]] == idx[..2] && idx[..2] + [idx[2]] == idx;
    assert Decode(a, f, g[3..], idx, 0) == Decoded(Triple(idx + [0], 1));
    assert Decode(a, f, g[2..], idx[..2], 0) == Decode(a, f, g[3..], idx, 0);
    assert Decode(a, f, g[1..], idx[..1], 0) == Decode(a, f, g[2..], idx[..2], 0);
  }

  lemma TwoPads(a: Alphabet, f: Flags, g: seq<Byte>, idx: seq<nat>)
    requires |g| == 4 && |idx| == 2
    requires forall k :: 0 <= k < 2 ==> g[k] != PAD && Index(a, g[k]) == Some(idx[k]) && idx[k] < 64
    requires g[2] == g[3] == PAD
    ensures Decode(a, f, g, [], 0) == Decoded(Triple(idx + [0] + [0], 2))
  {
    hide Index, Skipped, Triple;
    assert g[1..][1..] == g[2..] && g[2..][1..] == g[3..];
    assert [] + [idx[0]] == idx[..1] && idx[..1] + [idx[1]] == idx;
    assert Decode(a, f, g[3..], idx + [0], 1) == Decoded(Triple(idx + [0] + [0], 2));
    assert Decode(a, f, g[2..], idx, 0) == Decode(a, f, g[3..], idx + [0], 1);
    assert Decode(a, f, g[1..], idx[..1], 0) == Decode(a, f, g[2..], idx, 0);
  }

  /** One byte and two pads, or two bytes and one. */
  lemma DecodeTail(a: Alphabet, f: Flags, s: seq<Byte>)
    requires 1 <= |s| <= 2
    ensures Decode(a, f, Encoded(a, s), [], 0) == Decoded(s)
  {
    hide Index, Char, Decode;
    var x, y: Byte := s[0], if |s| == 2 then s[1] else 0;
    var i0, i1, i2 := x / 4, x % 4 * 16 + y / 16, y % 16 * 4;
    IndexOfChar(a, i0);
    IndexOfChar(a, i1);
    IndexOfChar(a, i2);
    Regroup(x, y, 0);
    if |s| == 2 {
      OnePad(a, f, Encoded(a, s), [i0, i1, i2]);
      assert Triple([i0, i1, i2] + [0], 1) == s;
    } else {
      TwoPads(a, f, Encoded(a, s), [i0, i1]);
      assert Triple([i0, i1] + [0] + [0], 2) == s;
    }
  }

  lemma {:induction false} DecodeEncoded(a: Alphabet, f: Flags, s: seq<Byte>)
    ensures Decode(a, f, Encoded(a, s), [], 0) == Decoded(s)
    decreases |s|
  {
    hide Group, Decode;
    if |s| >= 3 {
      DecodeGroup(a, f, s[0], s[1], s[2], Encoded(a, s[3..]));
      DecodeEncoded(a, f, s[3..]);
      assert [s[0], s[1], s[2]] + s[3..] == s;
    } else if |s| > 0 {
      DecodeTail(a, f, s);
    } else {
      DecodeEnd(a, f, [], 0, []);
      PrependNothing(Decode(a, f, [], [], 0));
    }
  }

  lemma {:induction false} EncodedPlain(a: Alphabet, s: seq<Byte>)
    ensures Plain(Encoded(a, s))
    decreases |s|
  {
    if |s| >= 3 {
      EncodedPlain(a, s[3..]);
    }
  }

  /** Decoding undoes encoding, whatever the line length and the strictness. */
  lemma Base64RoundTrip(a: Alphabet, f: Flags, s: seq<Byte>, lineLen: nat)
    ensures Decode(a, f, Wrapped(Encoded(a, s), lineLen, 0), [], 0) == Decoded(s)
  {
    hide Decode, Encoded, Wrapped;
    var t := Encoded(a, s);
    EncodedPlain(a, s);
    UnwrapWrapped(t, lineLen, 0);
    DecodeEncoded(a, f, s);
    DecodeUnwrapped(a, f, Wrapped(t, lineLen, 0), [], 0);
  }
}
