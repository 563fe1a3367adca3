/**
 Chunked transfer coding as RFC 7230 section 4.1 writes it, against the reader
 of HttpResp: every coded body is read back, and no cut one is.
 */
module ChunkedCoding {
  import opened Bytes
  import opened HttpTrans
  import opened HttpResp
  import opened HexDigits

  /** A chunk header: the size in hexadecimal and the extensions up to the line end. */
  datatype Header = Header(size: seq<Byte>, ext: seq<Byte>)

  /** end is the line end after the data, which the reader skips without looking. */
  datatype Chunk = Chunk(header: Header, data: seq<Byte>, end: seq<Byte>)

  // ---- sizes

  lemma DigitValue(d: nat)
    requires d < 16
    ensures var a, b := SmallDigits()[d], CapitalDigits()[d];
            IsHex(a) && IsHex(b) && HexDigit(a) == d == HexDigit(b)
  {
    hide SmallDigits, CapitalDigits;
    SmallDigit(d);
    CapitalDigit(d);
  }

  lemma DigitAt(c: Byte)
    requires IsHex(c)
    ensures HexDigit(c) < 16 && (c == SmallDigits()[HexDigit(c)] || c == CapitalDigits()[HexDigit(c)])
  {
    hide SmallDigits, CapitalDigits;
    SmallDigit(HexDigit(c));
    CapitalDigit(HexDigit(c));
  }

  /** The reader's digits are those of the two alphabets. */
  lemma DigitsAre(c: Byte)
    ensures IsHex(c) <==> c in SmallDigits() || c in CapitalDigits()
  {
    hide SmallDigits, CapitalDigits, IsHex, HexDigit;
    if IsHex(c) {
      DigitAt(c);
    } else if c in SmallDigits() || c in CapitalDigits() {
      var d :| 0 <= d < 16 && (SmallDigits()[d] == c || CapitalDigits()[d] == c);
      DigitValue(d);
    }
  }

  lemma {:induction false} SpelledNumber(t: seq<Byte>, n: nat)
    requires Spells(t, n)
    ensures (forall i :: 0 <= i < |t| ==> IsHex(t[i])) && HexNumber(t) == n
  {
    hide SmallDigits, CapitalDigits, IsHex, HexDigit;
    if t != [] {
      var init := t[..|t| - 1];
      SpelledNumber(init, n / 16);
      DigitValue(n % 16);
      assert forall i :: 0 <= i < |t| - 1 ==> t[i] == init[i];
    }
  }

  /** A size in hexadecimal, and an extension that does not go on with a digit and holds no line end. */
  ghost predicate HeaderOf(h: Header, n: nat) {
    && h.size != [] && Spells(h.size, n)
    && (h.ext == [] || (h.ext[0] !in SmallDigits() && h.ext[0] !in CapitalDigits()))
    && forall i: nat :: !MatchAt(h.ext, CRLF, i)
  }

  /** The header is one of hexadecimal digits and something else. */
  lemma HeaderIs(h: Header, n: nat)
    requires HeaderOf(h, n)
    ensures h.size != [] && (forall i :: 0 <= i < |h.size| ==> IsHex(h.size[i])) && HexNumber(h.size) == n
    ensures h.ext == [] || !IsHex(h.ext[0])
    ensures forall i: nat :: !MatchAt(h.ext, CRLF, i)
  {
    hide SmallDigits, CapitalDigits, Spells, HexNumber, IsHex;
    SpelledNumber(h.size, n);
    if h.ext != [] {
      DigitsAre(h.ext[0]);
    }
  }

  ghost predicate WellFormed(c: Chunk) {
    HeaderOf(c.header, |c.data|) && c.data != [] && |c.end| == 2
  }

  function EncodeHeader(h: Header): seq<Byte> {
    h.size + h.ext + CRLF
  }

  function Encode(chunks: seq<Chunk>): seq<Byte> {
    if chunks == [] then []
    else EncodeHeader(chunks[0].header) + chunks[0].data + chunks[0].end + Encode(chunks[1..])
  }

  function Content(chunks: seq<Chunk>): seq<Byte> {
    if chunks == [] then [] else chunks[0].data + Content(chunks[1..])
  }

  lemma HeaderEnds(h: Header, n: nat, more: seq<Byte>)
    requires HeaderOf(h, n)
    ensures FindPatt(EncodeHeader(h) + more, CRLF, 0) == Some(|h.size + h.ext|)
  {
    hide FindPatt, HexNumber, HeaderOf;
    HeaderIs(h, n);
    var t, end := EncodeHeader(h) + more, |h.size + h.ext|;
    assert t[end..end + 2] == CRLF;
    assert MatchAt(t, CRLF, end);
    forall j: nat | j < end
      ensures !MatchAt(t, CRLF, j)
    {
      assert t[j..j + 2][0] == t[j] && t[j..j + 2][1] == t[j + 1];
      if j < |h.size| {
        assert IsHex(t[j]);
      } else if j + 2 <= end {
        assert t[j..j + 2] == h.ext[j - |h.size|..j - |h.size| + 2];
        assert !MatchAt(h.ext, CRLF, j - |h.size|);
      } else {
        assert t[j + 1] == 13;
      }
    }
    assert FindPatt(t, CRLF, 0).Some?;
  }

  /** The reader takes from a header line the number it spells. */
  lemma HeaderSize(h: Header, n: nat)
    requires HeaderOf(h, n)
    ensures ChunkSize(h.size + h.ext) == Some(n)
  {
    hide HexNumber, HeaderOf;
    HeaderIs(h, n);
    var line := h.size + h.ext;
    var k := HexPrefix(line);
    assert forall i :: 0 <= i < |h.size| ==> IsHex(line[i]);
    assert h.ext != [] ==> !IsHex(line[|h.size|]);
    assert k == |h.size|;
    assert line[..k] == h.size;
  }

  lemma DecodeAfterHeader(h: Header, n: nat, more: seq<Byte>)
    requires HeaderOf(h, n)
    ensures Decode(0, EncodeHeader(h) + more) == if n == 0 then Some(([], more)) else Decode(n, more)
  {
    hide Decode, FindPatt, ChunkSize, HexNumber, HeaderOf;
    var t, end := EncodeHeader(h) + more, |h.size + h.ext|;
    HeaderEnds(h, n, more);
    HeaderSize(h, n);
    DecodeHeader(t, end);
    assert t[..end] == h.size + h.ext && t[end + 2..] == more;
  }

  /** Every coded body decodes to its content, leaving what follows the last header. */
  lemma {:induction false} ChunkedRoundTrip(chunks: seq<Chunk>, last: Header, rest: seq<Byte>)
    requires (forall c <- chunks :: WellFormed(c)) && HeaderOf(last, 0)
    ensures Decode(0, Encode(chunks) + EncodeHeader(last) + rest) == Some((Content(chunks), rest))
  {
    hide Decode, EncodeHeader, HeaderOf;
    if chunks == [] {
      assert Encode(chunks) + EncodeHeader(last) + rest == EncodeHeader(last) + rest;
      DecodeAfterHeader(last, 0, rest);
    } else {
      var c := chunks[0];
      var tail := Encode(chunks[1..]) + EncodeHeader(last) + rest;
      var more := c.data + c.end + tail;
      assert WellFormed(c);
      assert Encode(chunks) + EncodeHeader(last) + rest == EncodeHeader(c.header) + more;
      DecodeAfterHeader(c.header, |c.data|, more);
      DecodeChunk(|c.data|, more);
      assert more[..|c.data|] == c.data && more[|c.data| + 2..] == tail;
      ChunkedRoundTrip(chunks[1..], last, rest);
    }
  }

  /** What is decoded stays decoded when more bytes arrive. */
  lemma {:induction false} DecodeExtends(n: nat, s: seq<Byte>, t: seq<Byte>)
    requires Decode(n, s).Some?
    ensures Decode(n, s + t) == Some((Decode(n, s).value.0, Decode(n, s).value.1 + t))
    decreases |s|, n
  {
    if n > 0 {
      DecodeChunk(n, s);
      DecodeChunk(n, s + t);
      assert (s + t)[..n] == s[..n] && (s + t)[n + 2..] == s[n + 2..] + t;
      DecodeExtends(0, s[n + 2..], t);
    } else {
      ExtendHeader(s, t);
    }
  }

  lemma {:induction false} ExtendHeader(s: seq<Byte>, t: seq<Byte>)
    requires Decode(0, s).Some?
    ensures Decode(0, s + t) == Some((Decode(0, s).value.0, Decode(0, s).value.1 + t))
    decreases |s|, 0, 0
  {
    hide FindPatt, ChunkSize;
    var i := FindPatt(s, CRLF, 0).value;
    assert MatchAt(s, CRLF, i);
    FindPattExtends(s, t, CRLF);
    assert (s + t)[..i] == s[..i] && (s + t)[i + 2..] == s[i + 2..] + t;
    if ChunkSize(s[..i]) != Some(0) {
      DecodeExtends(ChunkSize(s[..i]).value, s[i + 2..], t);
    }
  }

  /**
   A coded body cut after k bytes decodes exactly when the cut leaves the header of the last chunk whole:
   the final line end is not waited for, but no cut inside a chunk is taken for the end.
   */
  lemma CutExactly(chunks: seq<Chunk>, last: Header, k: nat)
    requires (forall c <- chunks :: WellFormed(c)) && HeaderOf(last, 0)
    requires k <= |Encode(chunks) + EncodeHeader(last) + CRLF|
    ensures Decode(0, (Encode(chunks) + EncodeHeader(last) + CRLF)[..k]).Some?
            <==> k >= |Encode(chunks) + EncodeHeader(last)|
  {
    hide Decode, Encode, EncodeHeader, HeaderOf, WellFormed;
    var coded := Encode(chunks) + EncodeHeader(last);
    var cut := (coded + CRLF)[..k];
    if k >= |coded| {
      assert cut == coded + cut[|coded|..];
      ChunkedRoundTrip(chunks, last, cut[|coded|..]);
    } else if Decode(0, cut).Some? {
      DecodeExtends(0, cut, coded[k..]);
      assert cut + coded[k..] == coded == coded + [];
      ChunkedRoundTrip(chunks, last, []);
    }
  }
}
