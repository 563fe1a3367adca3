/**
 The JSON printer and parser: cJSON trees to text and back.

 PrintValue and ParseValue are the texts and trees the C functions produce, as
 functions; CJsonText holds the loops that build them in buffers. A text is the
 bytes of a C string without its terminator; the end of the sequence is the NUL.
 */
module CJson {
  import opened Bytes

  const QUOTE: Byte := 34
  const BACKSLASH: Byte := 92
  const COMMA: Byte := 44
  const COLON: Byte := 58
  const MINUS: Byte := 45
  const LBRACKET: Byte := 91
  const RBRACKET: Byte := 93
  const LBRACE: Byte := 123
  const RBRACE: Byte := 125
  const TAB: Byte := 9
  const NEWLINE: Byte := 10
  const SPACE: Byte := 32

  /** A cJSON item; children hang in a linked list, named in an object and unnamed in an array. */
  datatype Json =
    | Null | False | True
    | Number(n: int)
    | String(text: seq<Byte>)
    | Array(child: Nodes)
    | Object(child: Nodes)

  datatype Nodes = End | Node(name: Option<seq<Byte>>, value: Json, next: Nodes)

  const INT_MIN: int := -0x8000_0000
  const INT_MAX: int := 0x7fff_ffff

  predicate NulFree(s: seq<Byte>) {
    forall i :: 0 <= i < |s| ==> s[i] != 0
  }

  /** Trees the C structure can hold: int numbers, C strings, names exactly in objects. */
  predicate Printable(v: Json) {
    match v
    case Number(n) => INT_MIN <= n <= INT_MAX
    case String(s) => NulFree(s)
    case Array(c) => ChildrenPrintable(c, false)
    case Object(c) => ChildrenPrintable(c, true)
    case _ => true
  }

  predicate ChildrenPrintable(c: Nodes, named: bool) {
    match c
    case End => true
    case Node(name, v, next) =>
      && name.Some? == named && (named ==> NulFree(name.value))
      && Printable(v) && ChildrenPrintable(next, named)
  }

  // ---- printing

  function Hex(d: nat): Byte
    requires d < 16
  {
    if d < 10 then 48 + d else 87 + d
  }

  /** One byte of a string as print_string_ptr writes it. */
  function Escape(c: Byte): (r: seq<Byte>)
    ensures |r| >= 1
  {
    if c > 31 && c != QUOTE && c != BACKSLASH then [c]
    else if c == BACKSLASH || c == QUOTE then [BACKSLASH, c]
    else if c == 8 then [BACKSLASH, 98]
    else if c == 12 then [BACKSLASH, 102]
    else if c == 10 then [BACKSLASH, 110]
    else if c == 13 then [BACKSLASH, 114]
    else if c == 9 then [BACKSLASH, 116]
    else [BACKSLASH, 117, 48, 48, Hex(c / 16), Hex(c % 16)]
  }

  function Escaped(s: seq<Byte>): seq<Byte> {
    if s == [] then [] else Escape(s[0]) + Escaped(s[1..])
  }

  function PrintString(s: seq<Byte>): seq<Byte> {
    [QUOTE] + Escaped(s) + [QUOTE]
  }

  function Digits(n: nat): (r: seq<Byte>)
    ensures |r| >= 1
  {
    if n < 10 then [48 + n] else Digits(n / 10) + [48 + n % 10]
  }

  /** sprintf %d */
  function PrintInt(n: int): (r: seq<Byte>)
    ensures |r| >= 1
  {
    if n < 0 then [MINUS] + Digits(-n) else Digits(n)
  }

  function Tabs(n: nat): (r: seq<Byte>)
    ensures |r| == n
  {
    Fill(TAB, n)
  }

  function PrintValue(v: Json, depth: nat, fmt: bool): seq<Byte>
    requires Printable(v)
  {
    match v
    case Null => [110, 117, 108, 108]
    case False => [102, 97, 108, 115, 101]
    case True => [116, 114, 117, 101]
    case Number(n) => PrintInt(n)
    case String(s) => PrintString(s)
    case Array(c) => [LBRACKET] + PrintItems(c, depth + 1, fmt) + [RBRACKET]
    case Object(c) =>
      [LBRACE] + (if fmt then [NEWLINE] else []) + PrintMembers(c, depth + 1, fmt)
      + (if fmt then Tabs(depth) else []) + [RBRACE]
  }

  function PrintItems(c: Nodes, depth: nat, fmt: bool): seq<Byte>
    requires ChildrenPrintable(c, false)
  {
    match c
    case End => []
    case Node(_, v, next) =>
      PrintValue(v, depth, fmt)
      + (if next.End? then [] else if fmt then [COMMA, SPACE] else [COMMA])
      + PrintItems(next, depth, fmt)
  }

  function PrintMembers(c: Nodes, depth: nat, fmt: bool): seq<Byte>
    requires ChildrenPrintable(c, true)
  {
    match c
    case End => []
    case Node(name, v, next) =>
      (if fmt then Tabs(depth) else []) + PrintString(name.value)
      + (if fmt then [COLON, TAB] else [COLON]) + PrintValue(v, depth, fmt)
      + (if next.End? then [] else [COMMA]) + (if fmt then [NEWLINE] else [])
      + PrintMembers(next, depth, fmt)
  }

  // ---- parsing

  function Skip(t: seq<Byte>): (r: seq<Byte>)
    ensures |r| <= |t|
  {
    if t != [] && t[0] <= 32 then Skip(t[1..]) else t
  }

  predicate IsDigit(c: Byte) {
    48 <= c <= 57
  }

  function HexValue(c: Byte): Option<nat> {
    if IsDigit(c) then Some(c - 48)
    else if 97 <= c <= 102 then Some(c - 87)
    else if 65 <= c <= 70 then Some(c - 55)
    else None
  }

  /** The UTF-8 bytes of a code unit outside the surrogate range; zero and low surrogates give nothing. */
  function Utf8(u: nat): seq<Byte>
    requires u < 0x10000
  {
    if u == 0 || 0xDC00 <= u <= 0xDFFF then []
    else if u < 0x80 then [u]
    else if u < 0x800 then [0xC0 + u / 64, 0x80 + u % 64]
    else [0xE0 + u / 4096, 0x80 + u / 64 % 64, 0x80 + u % 64]
  }

  /** What follows backslash u: four hex digits that are not the first half of a surrogate pair. */
  function ParseUnicode(t: seq<Byte>): Option<seq<Byte>> {
    if |t| < 4 then None
    else
      match (HexValue(t[0]), HexValue(t[1]), HexValue(t[2]), HexValue(t[3]))
      case (Some(a), Some(b), Some(c), Some(d)) =>
        var u := ((a * 16 + b) * 16 + c) * 16 + d;
        if u >= 0x10000 || 0xD800 <= u <= 0xDBFF then None else Some(Utf8(u))
      case _ => None
  }

  /** One step of the copying loop of parse_string: the bytes stored and the characters consumed. */
  function ParseChar(t: seq<Byte>): (r: Option<(seq<Byte>, nat)>)
    requires t != [] && t[0] != QUOTE
    ensures r.Some? ==> 1 <= r.value.1 <= |t| && |r.value.0| <= r.value.1
  {
    if t[0] != BACKSLASH then Some(([t[0]], 1))
    else if |t| < 2 then None
    else if t[1] == 98 then Some(([8], 2))
    else if t[1] == 102 then Some(([12], 2))
    else if t[1] == 110 then Some(([10], 2))
    else if t[1] == 114 then Some(([13], 2))
    else if t[1] == 116 then Some(([9], 2))
    else if t[1] == 117 then
      match ParseUnicode(t[2..])
      case None => None
      case Some(bytes) => Some((bytes, 6))
    else Some(([t[1]], 2))
  }

  /** The characters after the opening quote; the end of the text also ends the string. */
  function ParseChars(t: seq<Byte>): (r: Option<(seq<Byte>, seq<Byte>)>)
    ensures r.Some? ==> |r.value.1| <= |t|
    decreases |t|
  {
    if t == [] then Some(([], []))
    else if t[0] == QUOTE then Some(([], t[1..]))
    else
      match ParseChar(t)
      case None => None
      case Some((bytes, n)) =>
        match ParseChars(t[n..])
        case None => None
        case Some((more, rest)) => Some((bytes + more, rest))
  }

  function ParseString(t: seq<Byte>): (r: Option<(seq<Byte>, seq<Byte>)>)
    ensures r.Some? ==> |r.value.1| < |t|
  {
    if t == [] || t[0] != QUOTE then None else ParseChars(t[1..])
  }

  function ParseDigits(t: seq<Byte>, n: nat): (r: (nat, seq<Byte>))
    ensures |r.1| <= |t|
    decreases |t|
  {
    if t != [] && IsDigit(t[0]) then ParseDigits(t[1..], n * 10 + (t[0] - 48)) else (n, t)
  }

  /** A fraction or an exponent, which this model does not evaluate. */
  predicate FloatFollows(t: seq<Byte>) {
    t != [] && (t[0] == 101 || t[0] == 69 || (t[0] == 46 && |t| > 1 && IsDigit(t[1])))
  }

  function ParseNumber(t: seq<Byte>): (r: Option<(int, seq<Byte>)>)
    requires t != [] && (t[0] == MINUS || IsDigit(t[0]))
    ensures r.Some? ==> |r.value.1| < |t|
  {
    var t1 := if t[0] == MINUS then t[1..] else t;
    var t2 := if t1 != [] && t1[0] == 48 then t1[1..] else t1;
    var (n, rest) := if t2 != [] && 49 <= t2[0] <= 57 then ParseDigits(t2, 0) else (0, t2);
    if FloatFollows(rest) then None else Some((if t[0] == MINUS then -(n as int) else n, rest))
  }

  predicate StartsWith(t: seq<Byte>, word: seq<Byte>) {
    |t| >= |word| && forall i :: 0 <= i < |word| ==> t[i] == word[i]
  }

  function ParseValue(t: seq<Byte>): (r: Option<(Json, seq<Byte>)>)
    ensures r.Some? ==> |r.value.1| < |t|
    decreases |t|, 0
  {
    if StartsWith(t, [110, 117, 108, 108]) then Some((Null, t[4..]))
    else if StartsWith(t, [102, 97, 108, 115, 101]) then Some((False, t[5..]))
    else if StartsWith(t, [116, 114, 117, 101]) then Some((True, t[4..]))
    else if t == [] then None
    else if t[0] == QUOTE then
      match ParseString(t) case None => None case Some((s, rest)) => Some((String(s), rest))
    else if t[0] == MINUS || IsDigit(t[0]) then
      match ParseNumber(t) case None => None case Some((n, rest)) => Some((Number(n), rest))
    else if t[0] == LBRACKET then
      var t1 := Skip(t[1..]);
      if t1 != [] && t1[0] == RBRACKET then Some((Array(End), t1[1..]))
      else match ParseItems(t1) case None => None case Some((c, rest)) => Some((Array(c), rest))
    else if t[0] == LBRACE then
      var t1 := Skip(t[1..]);
      if t1 != [] && t1[0] == RBRACE then Some((Object(End), t1[1..]))
      else match ParseMembers(t1) case None => None case Some((c, rest)) => Some((Object(c), rest))
    else None
  }

  function ParseItems(t: seq<Byte>): (r: Option<(Nodes, seq<Byte>)>)
    ensures r.Some? ==> |r.value.1| < |t|
    decreases |t|, 1
  {
    match ParseValue(Skip(t))
    case None => None
    case Some((v, rest)) =>
      var t1 := Skip(rest);
      if t1 != [] && t1[0] == COMMA then
        match ParseItems(t1[1..]) case None => None case Some((c, end)) => Some((Node(None, v, c), end))
      else if t1 != [] && t1[0] == RBRACKET then Some((Node(None, v, End), t1[1..]))
      else None
  }

  function ParseMembers(t: seq<Byte>): (r: Option<(Nodes, seq<Byte>)>)
    ensures r.Some? ==> |r.value.1| < |t|
    decreases |t|, 1
  {
    match ParseString(Skip(t))
    case None => None
    case Some((name, afterName)) =>
      var t1 := Skip(afterName);
      if t1 == [] || t1[0] != COLON then None
      else
        match ParseValue(Skip(t1[1..]))
        case None => None
        case Some((v, rest)) =>
          var t2 := Skip(rest);
          if t2 != [] && t2[0] == COMMA then
            match ParseMembers(t2[1..]) case None => None case Some((c, end)) => Some((Node(Some(name), v, c), end))
          else if t2 != [] && t2[0] == RBRACE then Some((Node(Some(name), v, End), t2[1..]))
          else None
  }

  // ---- parsing undoes printing

  /** What may follow a printed value: nothing that would extend a number. */
  predicate ValueEnds(rest: seq<Byte>) {
    rest == [] || (!IsDigit(rest[0]) && rest[0] != 46 && rest[0] != 101 && rest[0] != 69)
  }

  lemma {:induction false} DigitsParse(n: nat, m: nat, rest: seq<Byte>)
    requires ValueEnds(rest)
    ensures ParseDigits(Digits(n) + rest, m) == (m * Pow10(|Digits(n)|) + n, rest)
    decreases n
  {
    DigitsThen(n, m, rest);
    assert ParseDigits(rest, m * Pow10(|Digits(n)|) + n) == (m * Pow10(|Digits(n)|) + n, rest);
  }

  function Pow10(k: nat): nat {
    if k == 0 then 1 else 10 * Pow10(k - 1)
  }

  /** Reading the digits of n onto an accumulator m. */
  lemma {:induction false} DigitsThen(n: nat, m: nat, rest: seq<Byte>)
    ensures ParseDigits(Digits(n) + rest, m) == ParseDigits(rest, m * Pow10(|Digits(n)|) + n)
    decreases n
  {
    if n < 10 {
      assert (Digits(n) + rest)[1..] == rest;
      assert Pow10(1) == 10;
    } else {
      var last := [48 + n % 10];
      assert Digits(n) + rest == Digits(n / 10) + (last + rest);
      DigitsThen(n / 10, m, last + rest);
      assert (last + rest)[1..] == rest;
      var k := |Digits(n / 10)|;
      assert Pow10(k + 1) == 10 * Pow10(k);
      TenTimes(m, Pow10(k), n);
    }
  }

  lemma TenTimes(m: nat, p: nat, n: nat)
    ensures (m * p + n / 10) * 10 + n % 10 == m * (10 * p) + n
  {
    assert m * (10 * p) == 10 * (m * p);
  }

  lemma {:induction false} DigitsStart(n: nat)
    ensures forall i :: 0 <= i < |Digits(n)| ==> IsDigit(Digits(n)[i])
    ensures n > 0 ==> 49 <= Digits(n)[0] <= 57
    ensures n == 0 ==> Digits(n) == [48]
    decreases n
  {
    if n >= 10 {
      DigitsStart(n / 10);
    }
  }

  lemma NatParses(n: nat, rest: seq<Byte>)
    requires ValueEnds(rest)
    ensures var t := Digits(n) + rest;
            var t2 := if t[0] == 48 then t[1..] else t;
            (if t2 != [] && 49 <= t2[0] <= 57 then ParseDigits(t2, 0) else (0, t2)) == (n, rest)
  {
    DigitsStart(n);
    if n == 0 {
      assert ([48] + rest)[1..] == rest;
    } else {
      DigitsParse(n, 0, rest);
    }
  }

  lemma NumberRoundTrip(n: int, rest: seq<Byte>)
    requires ValueEnds(rest)
    ensures PrintInt(n)[0] == MINUS || IsDigit(PrintInt(n)[0])
    ensures ParseNumber(PrintInt(n) + rest) == Some((n, rest))
  {
    hide Digits, ParseDigits;
    var d := Digits(if n < 0 then -n else n);
    DigitsStart(if n < 0 then -n else n);
    NatParses(if n < 0 then -n else n, rest);
    if n < 0 {
      assert ([MINUS] + d + rest)[1..] == d + rest;
    } else {
      assert (d + rest)[0] == d[0] != MINUS;
    }
  }

  lemma HexRoundTrip(c: Byte)
    requires 0 < c < 32
    ensures ParseUnicode([48, 48, Hex(c / 16), Hex(c % 16)]) == Some([c])
  {
    assert HexValue(Hex(c / 16)) == Some(c / 16) && HexValue(Hex(c % 16)) == Some(c % 16);
  }

  lemma UnicodePrefix(t: seq<Byte>, rest: seq<Byte>)
    requires |t| == 4
    ensures ParseUnicode(t + rest) == ParseUnicode(t)
  {}

  /** Every byte but NUL survives escaping. */
  lemma CharRoundTrip(c: Byte, rest: seq<Byte>)
    requires c != 0
    ensures Escape(c)[0] != QUOTE
    ensures ParseChar(Escape(c) + rest) == Some(([c], |Escape(c)|))
  {
    var e := Escape(c);
    if |e| == 6 {
      HexRoundTrip(c);
      var digits: seq<Byte> := [48, 48, Hex(c / 16), Hex(c % 16)];
      UnicodePrefix(digits, rest);
      assert (e + rest)[2..] == digits + rest;
    }
  }

  lemma {:induction false} CharsRoundTrip(s: seq<Byte>, rest: seq<Byte>)
    requires NulFree(s)
    ensures ParseChars(Escaped(s) + [QUOTE] + rest) == Some((s, rest))
    decreases |s|
  {
    hide Escape, ParseChar;
    if s == [] {
      assert ([QUOTE] + rest)[1..] == rest;
      assert Escaped(s) + [QUOTE] + rest == [QUOTE] + rest;
    } else {
      var e, tail := Escape(s[0]), Escaped(s[1..]) + [QUOTE] + rest;
      assert Escaped(s) + [QUOTE] + rest == e + tail;
      CharRoundTrip(s[0], tail);
      assert (e + tail)[|e|..] == tail;
      assert NulFree(s[1..]);
      CharsRoundTrip(s[1..], rest);
      assert [s[0]] + s[1..] == s;
    }
  }

  lemma StringRoundTrip(s: seq<Byte>, rest: seq<Byte>)
    requires NulFree(s)
    ensures ParseString(PrintString(s) + rest) == Some((s, rest))
  {
    var t := PrintString(s) + rest;
    assert t[1..] == Escaped(s) + [QUOTE] + rest;
    CharsRoundTrip(s, rest);
  }

  /** The first character of a printed value tells the parser which branch to take. */
  lemma ValueStarts(v: Json, depth: nat, fmt: bool, rest: seq<Byte>)
    requires Printable(v)
    ensures var p := PrintValue(v, depth, fmt);
            && p != [] && p[0] > 32 && p[0] != RBRACKET && p[0] != RBRACE
            && Skip(p + rest) == p + rest
  {
    if v.Number? {
      NumberRoundTrip(v.n, []);
    }
  }

  lemma SkipPrefix(space: seq<Byte>, t: seq<Byte>)
    requires forall i :: 0 <= i < |space| ==> space[i] <= 32
    ensures Skip(space + t) == Skip(t)
  {
    if space == [] {
      assert space + t == t;
    } else {
      assert (space + t)[1..] == space[1..] + t;
      SkipPrefix(space[1..], t);
    }
  }

  lemma SkipStop(c: Byte, t: seq<Byte>)
    requires c > 32
    ensures Skip([c] + t) == [c] + t
  {}

  /** parse_value undoes print_value, formatted or not, whatever follows that does not extend a number. */
  lemma {:induction false} RoundTrip(v: Json, depth: nat, fmt: bool, rest: seq<Byte>)
    requires Printable(v) && ValueEnds(rest)
    ensures ParseValue(PrintValue(v, depth, fmt) + rest) == Some((v, rest))
    decreases v, 0
  {
    match v
    case Number(n) => NumberValue(n, rest);
    case String(s) => StringValue(s, rest);
    case Array(c) => ArrayValue(c, depth, fmt, rest);
    case Object(c) => ObjectValue(c, depth, fmt, rest);
    case _ => Words(v, rest);
  }

  lemma Words(v: Json, rest: seq<Byte>)
    requires v.Null? || v.False? || v.True?
    ensures ParseValue(PrintValue(v, 0, false) + rest) == Some((v, rest))
  {
    var p := PrintValue(v, 0, false);
    assert forall i :: 0 <= i < |p| ==> (p + rest)[i] == p[i];
    assert (p + rest)[|p|..] == rest;
    assert v.False? ==> (p + rest)[0] != 110;
    assert v.True? ==> (p + rest)[0] == 116;
  }

  /** The first character decides the branch of parse_value. */
  lemma Dispatch(t: seq<Byte>)
    requires t != []
    ensures t[0] == QUOTE ==>
              ParseValue(t) == match ParseString(t) case None => None case Some((s, rest)) => Some((String(s), rest))
    ensures t[0] == MINUS || IsDigit(t[0]) ==>
              ParseValue(t) == match ParseNumber(t) case None => None case Some((n, rest)) => Some((Number(n), rest))
    ensures t[0] == LBRACKET ==>
              var t1 := Skip(t[1..]);
              ParseValue(t) ==
              if t1 != [] && t1[0] == RBRACKET then Some((Array(End), t1[1..]))
              else match ParseItems(t1) case None => None case Some((c, rest)) => Some((Array(c), rest))
    ensures t[0] == LBRACE ==>
              var t1 := Skip(t[1..]);
              ParseValue(t) ==
              if t1 != [] && t1[0] == RBRACE then Some((Object(End), t1[1..]))
              else match ParseMembers(t1) case None => None case Some((c, rest)) => Some((Object(c), rest))
  {
    hide ParseString, ParseNumber, ParseItems, ParseMembers, Skip;
  }

  lemma NumberValue(n: int, rest: seq<Byte>)
    requires ValueEnds(rest)
    ensures ParseValue(PrintInt(n) + rest) == Some((Number(n), rest))
  {
    hide PrintInt, ParseNumber, ParseValue;
    NumberRoundTrip(n, rest);
    Dispatch(PrintInt(n) + rest);
  }

  lemma StringValue(s: seq<Byte>, rest: seq<Byte>)
    requires NulFree(s)
    ensures ParseValue(PrintString(s) + rest) == Some((String(s), rest))
  {
    hide ParseString, ParseValue, Escaped;
    StringRoundTrip(s, rest);
    Dispatch(PrintString(s) + rest);
  }

  lemma {:induction false} ArrayValue(c: Nodes, depth: nat, fmt: bool, rest: seq<Byte>)
    requires ChildrenPrintable(c, false)
    ensures ParseValue(PrintValue(Array(c), depth, fmt) + rest) == Some((Array(c), rest))
    decreases c, 1
  {
    hide ParseItems, ParseValue, PrintItems, Skip;
    var t := PrintValue(Array(c), depth, fmt) + rest;
    Dispatch(t);
    assert t[1..] == PrintItems(c, depth + 1, fmt) + [RBRACKET] + rest;
    if c.End? {
      NoItems(depth + 1, fmt);
      assert t[1..] == [RBRACKET] + rest;
      SkipStop(RBRACKET, rest);
      assert ([RBRACKET] + rest)[1..] == rest;
    } else {
      ItemsRoundTrip(c, depth + 1, fmt, rest);
      ItemsStart(c, depth + 1, fmt, [RBRACKET] + rest);
      assert t[1..] == PrintItems(c, depth + 1, fmt) + ([RBRACKET] + rest);
    }
  }

  lemma NoItems(depth: nat, fmt: bool)
    ensures PrintItems(End, depth, fmt) == []
  {}

  lemma ItemsStart(c: Nodes, depth: nat, fmt: bool, rest: seq<Byte>)
    requires ChildrenPrintable(c, false) && c.Node?
    ensures var p := PrintItems(c, depth, fmt) + rest;
            p != [] && p[0] > 32 && p[0] != RBRACKET && Skip(p) == p
  {
    hide PrintValue;
    ValueStarts(c.value, depth, fmt, []);
  }

  lemma {:induction false} ItemsRoundTrip(c: Nodes, depth: nat, fmt: bool, rest: seq<Byte>)
    requires ChildrenPrintable(c, false) && c.Node?
    ensures ParseItems(PrintItems(c, depth, fmt) + [RBRACKET] + rest) == Some((c, rest))
    decreases c, 0
  {
    hide PrintValue, ParseValue;
    var t := PrintItems(c, depth, fmt) + [RBRACKET] + rest;
    var p := PrintValue(c.value, depth, fmt);
    if c.next.End? {
      var after := [RBRACKET] + rest;
      assert t == p + after;
      ValueStarts(c.value, depth, fmt, after);
      RoundTrip(c.value, depth, fmt, after);
      SkipStop(RBRACKET, rest);
      assert after[1..] == rest;
    } else {
      var space: seq<Byte> := if fmt then [SPACE] else [];
      var tail := PrintItems(c.next, depth, fmt) + [RBRACKET] + rest;
      var after := [COMMA] + (space + tail);
      assert t == p + after;
      ValueStarts(c.value, depth, fmt, after);
      RoundTrip(c.value, depth, fmt, after);
      SkipStop(COMMA, space + tail);
      assert after[1..] == space + tail;
      ItemsRoundTrip(c.next, depth, fmt, rest);
      ItemsIgnoreSpace(space, tail);
    }
  }

  lemma ItemsIgnoreSpace(space: seq<Byte>, t: seq<Byte>)
    requires forall i :: 0 <= i < |space| ==> space[i] <= 32
    ensures ParseItems(space + t) == ParseItems(t)
  {
    hide ParseValue;
    SkipPrefix(space, t);
  }

  lemma MembersIgnoreSpace(space: seq<Byte>, t: seq<Byte>)
    requires forall i :: 0 <= i < |space| ==> space[i] <= 32
    ensures ParseMembers(space + t) == ParseMembers(t)
  {
    hide ParseValue, ParseString;
    SkipPrefix(space, t);
  }

  lemma {:induction false} ObjectValue(c: Nodes, depth: nat, fmt: bool, rest: seq<Byte>)
    requires ChildrenPrintable(c, true)
    ensures ParseValue(PrintValue(Object(c), depth, fmt) + rest) == Some((Object(c), rest))
    decreases c, 2
  {
    hide ParseMembers, PrintMembers, ParseValue, Skip, Tabs;
    var t := PrintValue(Object(c), depth, fmt) + rest;
    Dispatch(t);
    TabsAreSpace(depth);
    var lead: seq<Byte> := if fmt then [NEWLINE] else [];
    var trail: seq<Byte> := if fmt then Tabs(depth) else [];
    var body := PrintMembers(c, depth + 1, fmt) + trail + [RBRACE] + rest;
    assert t[1..] == lead + body;
    SkipPrefix(lead, body);
    if c.End? {
      NoMembers(depth + 1, fmt);
      assert body == trail + ([RBRACE] + rest);
      SkipPrefix(trail, [RBRACE] + rest);
      SkipStop(RBRACE, rest);
      assert ([RBRACE] + rest)[1..] == rest;
    } else {
      MembersRoundTrip(c, depth + 1, fmt, trail, rest);
      MembersStart(c, depth + 1, fmt, trail + [RBRACE] + rest);
      assert body == PrintMembers(c, depth + 1, fmt) + (trail + [RBRACE] + rest);
      ParseSkipped(body);
    }
  }

  lemma NoMembers(depth: nat, fmt: bool)
    ensures PrintMembers(End, depth, fmt) == []
  {}

  lemma {:induction false} SkipTwice(t: seq<Byte>)
    ensures Skip(Skip(t)) == Skip(t)
  {
    if t != [] && t[0] <= 32 {
      SkipTwice(t[1..]);
    }
  }

  lemma ParseSkipped(t: seq<Byte>)
    ensures ParseMembers(Skip(t)) == ParseMembers(t)
  {
    hide ParseValue, ParseString, Skip;
    SkipTwice(t);
  }

  lemma MembersStart(c: Nodes, depth: nat, fmt: bool, rest: seq<Byte>)
    requires ChildrenPrintable(c, true) && c.Node?
    ensures var p := Skip(PrintMembers(c, depth, fmt) + rest);
            p != [] && p[0] == QUOTE
  {
    hide PrintValue, Tabs, Escaped, Skip;
    var lead: seq<Byte> := if fmt then Tabs(depth) else [];
    TabsAreSpace(depth);
    var name := PrintString(c.name.value);
    var p := PrintMembers(c, depth, fmt);
    assert p[..|lead| + |name|] == lead + name;
    var more := p[|lead| + |name|..] + rest;
    assert p + rest == lead + (name + more);
    SkipPrefix(lead, name + more);
    SkipStop(QUOTE, (name + more)[1..]);
    assert name + more == [QUOTE] + (name + more)[1..];
  }

  lemma TabsAreSpace(n: nat)
    ensures forall i :: 0 <= i < n ==> Tabs(n)[i] <= 32
  {}

  /** What parse_object makes of a text once the name, the colon and the value are read. */
  lemma MemberDispatch(t: seq<Byte>, name: seq<Byte>, colon: seq<Byte>, v: Json, after: seq<Byte>)
    requires ParseString(Skip(t)) == Some((name, colon)) && colon != [] && colon[0] == COLON && Skip(colon) == colon
    requires ParseValue(Skip(colon[1..])) == Some((v, after)) && Skip(after) != []
    ensures Skip(after)[0] == RBRACE ==> ParseMembers(t) == Some((Node(Some(name), v, End), Skip(after)[1..]))
    ensures Skip(after)[0] == COMMA ==>
              ParseMembers(t) == match ParseMembers(Skip(after)[1..])
                                 case None => None
                                 case Some((c, end)) => Some((Node(Some(name), v, c), end))
  {
    hide ParseString, ParseValue, Skip;
  }

  lemma MembersUnfold(c: Nodes, depth: nat, fmt: bool)
    requires ChildrenPrintable(c, true) && c.Node?
    ensures PrintMembers(c, depth, fmt) ==
            (if fmt then Tabs(depth) else []) + PrintString(c.name.value)
            + ([COLON] + (if fmt then [TAB] else [])) + PrintValue(c.value, depth, fmt)
            + (if c.next.End? then [] else [COMMA]) + (if fmt then [NEWLINE] else [])
            + PrintMembers(c.next, depth, fmt)
  {
    hide PrintValue, PrintString, Tabs;
    assert [COLON] + [TAB] == [COLON, TAB] && [COLON] + [] == [COLON];
  }

  /** The last member, and the end of the object behind it. */
  lemma {:induction false} LastMember(c: Nodes, depth: nat, fmt: bool, trail: seq<Byte>, rest: seq<Byte>)
    requires ChildrenPrintable(c, true) && c.Node? && c.next.End?
    requires forall i :: 0 <= i < |trail| ==> trail[i] <= 32
    ensures ParseMembers(PrintMembers(c, depth, fmt) + trail + [RBRACE] + rest) == Some((c, rest))
    decreases c, 0
  {
    hide PrintValue, ParseValue, PrintString, ParseString, ParseMembers, PrintMembers, Tabs, Skip;
    var lead: seq<Byte> := if fmt then Tabs(depth) else [];
    TabsAreSpace(depth);
    var gap: seq<Byte> := if fmt then [TAB] else [];
    var line: seq<Byte> := if fmt then [NEWLINE] else [];
    var name, p := PrintString(c.name.value), PrintValue(c.value, depth, fmt);
    var t, close := PrintMembers(c, depth, fmt) + trail + [RBRACE] + rest, [RBRACE] + rest;
    var after := line + trail + close;
    MembersUnfold(c, depth, fmt);
    NoMembers(depth, fmt);
    assert t == PrintMembers(c, depth, fmt) + trail + close;
    Joined(lead, name, [COLON], gap, p, line, trail, close);
    MemberParses(c.name.value, c.value, depth, fmt, lead, gap, after);
    SkipPrefix(line + trail, close);
    SkipStop(RBRACE, rest);
    assert close[1..] == rest;
    MemberDispatch(t, c.name.value, [COLON] + (gap + (p + after)), c.value, after);
  }

  /** The members after their indentation: name, colon, value, and what follows each. */
  lemma {:induction false} MembersRoundTrip(c: Nodes, depth: nat, fmt: bool, trail: seq<Byte>, rest: seq<Byte>)
    requires ChildrenPrintable(c, true) && c.Node?
    requires forall i :: 0 <= i < |trail| ==> trail[i] <= 32
    ensures ParseMembers(PrintMembers(c, depth, fmt) + trail + [RBRACE] + rest) == Some((c, rest))
    decreases c, 1
  {
    hide PrintValue, ParseValue, PrintString, ParseString, ParseMembers, PrintMembers, Tabs, Skip;
    if c.next.End? {
      LastMember(c, depth, fmt, trail, rest);
    } else {
      var lead: seq<Byte> := if fmt then Tabs(depth) else [];
      TabsAreSpace(depth);
      var gap: seq<Byte> := if fmt then [TAB] else [];
      var line: seq<Byte> := if fmt then [NEWLINE] else [];
      var name, p := PrintString(c.name.value), PrintValue(c.value, depth, fmt);
      var more := PrintMembers(c.next, depth, fmt);
      var t, tail := PrintMembers(c, depth, fmt) + trail + [RBRACE] + rest, more + trail + [RBRACE] + rest;
      var after := [COMMA] + (line + tail);
      MembersUnfold(c, depth, fmt);
      JoinedMore(lead, name, [COLON], gap, p, [COMMA], line, more, trail, [RBRACE], rest);
      MemberParses(c.name.value, c.value, depth, fmt, lead, gap, after);
      SkipStop(COMMA, line + tail);
      assert after[1..] == line + tail;
      MemberDispatch(t, c.name.value, [COLON] + (gap + (p + after)), c.value, after);
      MembersRoundTrip(c.next, depth, fmt, trail, rest);
      MembersIgnoreSpace(line, tail);
    }
  }

  lemma Joined<T>(lead: seq<T>, name: seq<T>, colon: seq<T>, gap: seq<T>, p: seq<T>, line: seq<T>, trail: seq<T>,
                  close: seq<T>)
    ensures lead + name + (colon + gap) + p + [] + line + [] + trail + close
            == lead + (name + (colon + (gap + (p + (line + trail + close)))))
  {}

  lemma JoinedMore<T>(lead: seq<T>, name: seq<T>, colon: seq<T>, gap: seq<T>, p: seq<T>, comma: seq<T>, line: seq<T>,
                      more: seq<T>, trail: seq<T>, brace: seq<T>, rest: seq<T>)
    ensures lead + name + (colon + gap) + p + comma + line + more + trail + brace + rest
            == lead + (name + (colon + (gap + (p + (comma + (line + (more + trail + brace + rest)))))))
  {}

  /** The parser's steps over one member: the name, the colon, the value. */
  lemma {:induction false} MemberParses(name: seq<Byte>, v: Json, depth: nat, fmt: bool, lead: seq<Byte>,
                                        gap: seq<Byte>, after: seq<Byte>)
    requires NulFree(name) && Printable(v) && ValueEnds(after)
    requires forall i :: 0 <= i < |lead| ==> lead[i] <= 32
    requires forall i :: 0 <= i < |gap| ==> gap[i] <= 32
    ensures var t := lead + (PrintString(name) + ([COLON] + (gap + (PrintValue(v, depth, fmt) + after))));
            && ParseString(Skip(t)) == Some((name, [COLON] + (gap + (PrintValue(v, depth, fmt) + after))))
            && Skip([COLON] + (gap + (PrintValue(v, depth, fmt) + after)))
                 == [COLON] + (gap + (PrintValue(v, depth, fmt) + after))
            && ParseValue(Skip(([COLON] + (gap + (PrintValue(v, depth, fmt) + after)))[1..])) == Some((v, after))
    decreases v, 1
  {
    hide PrintValue, ParseValue, ParseString, Escaped;
    var value := PrintValue(v, depth, fmt) + after;
    var colon := [COLON] + (gap + value);
    SkipPrefix(lead, PrintString(name) + colon);
    StringRoundTrip(name, colon);
    assert Skip(PrintString(name) + colon) == PrintString(name) + colon;
    SkipStop(COLON, gap + value);
    assert colon[1..] == gap + value;
    SkipPrefix(gap, value);
    ValueStarts(v, depth, fmt, after);
    RoundTrip(v, depth, fmt, after);
  }

  /** cJSON_Parse after cJSON_Print or cJSON_PrintUnformatted. */
  lemma PrintThenParse(v: Json, fmt: bool)
    requires Printable(v)
    ensures ParseValue(Skip(PrintValue(v, 0, fmt))) == Some((v, []))
  {
    hide PrintValue, ParseValue;
    assert PrintValue(v, 0, fmt) + [] == PrintValue(v, 0, fmt);
    ValueStarts(v, 0, fmt, []);
    RoundTrip(v, 0, fmt, []);
  }
}
