/**
 What the JSON parser takes: texts of the grammar and nothing else, with the
 liberties that are written down here.
 */
module JsonAccepted {
  import opened Bytes
  import opened HexDigits
  import opened CJson
  import opened JsonGrammar

  /** White space is whatever is not above the space. */
  predicate Blank(s: seq<Byte>) {
    forall i :: 0 <= i < |s| ==> s[i] <= 32
  }

  // ---- strings

  /** A backslash may stand in front of any character, which then stands for itself. */
  ghost predicate EscapeReads(letter: Byte, b: seq<Byte>) {
    && letter != Text("u")[0]
    && if letter in ShortLetters() then
         exists i :: 0 <= i < 8 && ShortLetters()[i] == letter && b == [ShortMeanings()[i]]
       else b == [letter]
  }

  /** Code unit zero and the low surrogates give nothing, the high surrogates are not taken. */
  ghost predicate UnitReads(hex: seq<Byte>, u: nat, b: seq<Byte>) {
    && |hex| == 4 && Spells(hex, u) && u < 0x10000
    && if u == 0 || 0xDC00 <= u <= 0xDFFF then b == [] else ReadUtf8(b) == Some(u)
  }

  /** One character of a string as it is written, and its bytes; control characters may stand as they are. */
  ghost predicate CharReads(x: seq<Byte>, b: seq<Byte>) {
    || (|x| == 1 && x[0] != QUOTE && x[0] != BACKSLASH && b == x)
    || (|x| == 2 && x[0] == BACKSLASH && EscapeReads(x[1], b))
    || (|x| == 6 && x[..2] == Text("\\u") && exists u: nat :: UnitReads(x[2..], u, b))
  }

  ghost predicate CharsRead(x: seq<Byte>, s: seq<Byte>)
    decreases |x|
  {
    if x == [] then s == []
    else
      exists n: nat, m: nat ::
        0 < n <= |x| && m <= |s| && CharReads(x[..n], s[..m]) && CharsRead(x[n..], s[m..])
  }

  /** A string in quotes; at the end of the text the second may be missing. */
  ghost predicate StringReads(x: seq<Byte>, s: seq<Byte>, last: bool) {
    && x != [] && x[0] == QUOTE
    && (|| (|x| > 1 && x[|x| - 1] == QUOTE && CharsRead(x[1..|x| - 1], s))
        || (last && CharsRead(x[1..], s)))
  }

  lemma DigitOf(c: Byte)
    requires HexValue(c).Some?
    ensures var d := HexValue(c).value; d < 16 && (c == SmallDigits()[d] || c == CapitalDigits()[d])
  {
    hide SmallDigits, CapitalDigits;
    SmallDigit(HexValue(c).value);
    CapitalDigit(HexValue(c).value);
  }

  lemma SpellsOneMore(t: seq<Byte>, n: nat, c: Byte)
    requires Spells(t, n) && HexValue(c).Some?
    ensures Spells(t + [c], n * 16 + HexValue(c).value)
  {
    hide HexValue, SmallDigits, CapitalDigits, Spells;
    DigitOf(c);
    SpellsMore(t, n, HexValue(c).value, c);
  }

  lemma UnitTaken(t: seq<Byte>)
    requires ParseUnicode(t).Some?
    ensures |t| >= 4 && exists u: nat :: UnitReads(t[..4], u, ParseUnicode(t).value)
  {
    hide HexValue, Spells, Utf8, ReadUtf8;
    var a, b, c, d := HexValue(t[0]).value, HexValue(t[1]).value, HexValue(t[2]).value, HexValue(t[3]).value;
    var u := ((a * 16 + b) * 16 + c) * 16 + d;
    NothingSpells();
    SpellsOneMore([], 0, t[0]);
    SpellsOneMore([] + [t[0]], 0 * 16 + a, t[1]);
    SpellsOneMore([] + [t[0]] + [t[1]], a * 16 + b, t[2]);
    SpellsOneMore([] + [t[0]] + [t[1]] + [t[2]], (a * 16 + b) * 16 + c, t[3]);
    assert [] + [t[0]] + [t[1]] + [t[2]] + [t[3]] == t[..4];
    if u != 0 && !(0xD800 <= u <= 0xDFFF) {
      Utf8Reads(u);
    }
    NoBytes(u);
    assert UnitReads(t[..4], u, ParseUnicode(t).value);
  }

  lemma NoBytes(u: nat)
    requires u < 0x10000
    ensures u == 0 || 0xDC00 <= u <= 0xDFFF ==> Utf8(u) == []
  {}

  lemma CharTaken(t: seq<Byte>)
    requires t != [] && t[0] != QUOTE && ParseChar(t).Some?
    ensures var (b, n) := ParseChar(t).value; CharReads(t[..n], b)
  {
    hide UnitReads, ParseUnicode, EscapeReads;
    assert Text("\\u") == [BACKSLASH, 117] && Text("u") == [117];
    var (b, n) := ParseChar(t).value;
    if t[0] == BACKSLASH && t[1] == 117 {
      UnitTaken(t[2..]);
      assert t[..6][2..] == t[2..][..4];
      assert t[..6][..2] == [BACKSLASH, 117];
    } else if t[0] == BACKSLASH {
      EscapeTaken(t[1]);
      assert b == [ShortMeaning(t[1])] && t[..2][1] == t[1];
    }
  }

  lemma EscapeTaken(letter: Byte)
    requires letter != 117
    ensures EscapeReads(letter, [ShortMeaning(letter)])
  {
    assert Text("u") == [117];
    if letter in ShortLetters() {
      ShortParses(letter, []);
    } else {
      LettersIn();
    }
  }

  lemma LettersIn()
    ensures 98 in ShortLetters() && 102 in ShortLetters() && 110 in ShortLetters()
    ensures 114 in ShortLetters() && 116 in ShortLetters()
  {
    var l := ShortLetters();
    assert l[3] == 98 && l[4] == 102 && l[5] == 110 && l[6] == 114 && l[7] == 116;
  }

  lemma {:induction false} CharsTaken(t: seq<Byte>)
    requires ParseChars(t).Some?
    ensures var (s, rest) := ParseChars(t).value;
            var k := |t| - |rest|;
            && t[k..] == rest
            && ((k > 0 && t[k - 1] == QUOTE && CharsRead(t[..k - 1], s)) || (rest == [] && CharsRead(t, s)))
    decreases |t|
  {
    hide ParseChar, CharReads, CharsRead;
    EmptyChars();
    if t != [] && t[0] != QUOTE {
      CharTaken(t);
      var (b, n) := ParseChar(t).value;
      CharsTaken(t[n..]);
      var (more, rest) := ParseChars(t[n..]).value;
      var s, k := b + more, |t| - |rest|;
      assert s[..|b|] == b && s[|b|..] == more;
      assert t[k..] == t[n..][k - n..];
      if k > n && t[k - 1] == QUOTE && CharsRead(t[n..][..k - 1 - n], more) {
        assert t[..k - 1][..n] == t[..n] && t[..k - 1][n..] == t[n..][..k - 1 - n];
        OneMoreChar(t[..k - 1], n, s, |b|);
      } else {
        OneMoreChar(t, n, s, |b|);
      }
    }
  }

  lemma EmptyChars()
    ensures CharsRead([], [])
  {}

  lemma OneMoreChar(x: seq<Byte>, n: nat, s: seq<Byte>, m: nat)
    requires 0 < n <= |x| && m <= |s| && CharReads(x[..n], s[..m]) && CharsRead(x[n..], s[m..])
    ensures CharsRead(x, s)
  {}

  lemma StringTaken(t: seq<Byte>)
    requires ParseString(t).Some?
    ensures var (s, rest) := ParseString(t).value;
            var k := |t| - |rest|;
            t[k..] == rest && StringReads(t[..k], s, rest == [])
  {
    hide ParseChars, CharsRead;
    CharsTaken(t[1..]);
    var (s, rest) := ParseString(t).value;
    var k := |t| - |rest|;
    if k > 1 && t[k - 1] == QUOTE && CharsRead(t[1..][..k - 2], s) {
      assert t[..k][1..k - 1] == t[1..][..k - 2];
    } else {
      assert t[..k] == t;
    }
  }

  // ---- numbers

  predicate SpellsDecimal(t: seq<Byte>, n: nat) {
    if t == [] then n == 0
    else t[|t| - 1] == Text("0123456789")[n % 10] && SpellsDecimal(t[..|t| - 1], n / 10)
  }

  /** A minus, a zero and digits that do not start with another, each of which may be missing, but not all. */
  predicate NumberParts(x: seq<Byte>, minus: bool, zero: bool, digits: seq<Byte>, n: nat) {
    && x == (if minus then Text("-") else []) + (if zero then Text("0") else []) + digits
    && x != [] && SpellsDecimal(digits, n) && (digits != [] ==> digits[0] != Text("0")[0])
  }

  ghost predicate NumberReads(x: seq<Byte>, value: int) {
    exists minus: bool, zero: bool, digits: seq<Byte>, n: nat ::
      NumberParts(x, minus, zero, digits, n) && value == Signed(minus, n)
  }

  lemma DecimalDigit(d: nat)
    requires d < 10
    ensures Text("0123456789")[d] == 48 + d
  {}

  /** The digits read after those of n. */
  lemma {:induction false} DigitsTaken(front: seq<Byte>, n: nat, t: seq<Byte>)
    requires SpellsDecimal(front, n)
    ensures var (value, rest) := ParseDigits(t, n);
            var k := |t| - |rest|;
            t[k..] == rest && SpellsDecimal(front + t[..k], value)
    decreases |t|
  {
    hide SpellsDecimal;
    if t != [] && IsDigit(t[0]) {
      var d := t[0] - 48;
      DecimalOneMore(front, n, d);
      DigitsTaken(front + [t[0]], n * 10 + d, t[1..]);
      var k := |t| - |ParseDigits(t, n).1|;
      assert front + [t[0]] + t[1..][..k - 1] == front + t[..k];
    } else {
      assert front + t[..0] == front;
    }
  }

  lemma DecimalOneMore(front: seq<Byte>, n: nat, d: nat)
    requires SpellsDecimal(front, n) && d < 10
    ensures SpellsDecimal(front + [48 + d], n * 10 + d)
  {
    DecimalDigit(d);
    assert (front + [48 + d])[..|front|] == front;
  }

  lemma NumberTaken(t: seq<Byte>)
    requires t != [] && (t[0] == MINUS || IsDigit(t[0])) && ParseNumber(t).Some?
    ensures var (n, rest) := ParseNumber(t).value;
            var k := |t| - |rest|;
            t[k..] == rest && NumberReads(t[..k], n)
  {
    hide ParseDigits, SpellsDecimal, FloatFollows, NumberParts, NumberReads;
    var minus := t[0] == MINUS;
    var t1 := if minus then t[1..] else t;
    var zero := t1 != [] && t1[0] == 48;
    var t2 := if zero then t1[1..] else t1;
    var (n, rest) := if t2 != [] && 49 <= t2[0] <= 57 then ParseDigits(t2, 0) else (0, t2);
    assert ParseNumber(t).value == (Signed(minus, n), rest);
    MagnitudeTaken(t2);
    NumberJoined(t, minus, zero, t2, n, rest);
  }

  lemma NumberJoined(t: seq<Byte>, minus: bool, zero: bool, t2: seq<Byte>, n: nat, rest: seq<Byte>)
    requires t != [] && |rest| <= |t2|
    requires var t1 := if minus then t[1..] else t;
             && (minus ==> t[0] == MINUS) && (zero ==> t1 != [] && t1[0] == 48) && t2 == if zero then t1[1..] else t1
    requires var digits := t2[..|t2| - |rest|];
             && t2 == digits + rest && SpellsDecimal(digits, n) && (digits != [] ==> digits[0] != 48)
             && (minus || zero || digits != [])
    ensures var k := |t| - |rest|; t[k..] == rest && NumberReads(t[..k], Signed(minus, n))
  {
    hide SpellsDecimal, NumberParts;
    var k, digits := |t| - |rest|, t2[..|t2| - |rest|];
    var sign: seq<Byte>, nought: seq<Byte> := if minus then [MINUS] else [], if zero then [48] else [];
    Joined(t, minus, zero, t2);
    Cut(sign, nought, digits, rest);
    PartsAre(t[..k], minus, zero, digits, n);
  }

  lemma Joined(t: seq<Byte>, minus: bool, zero: bool, t2: seq<Byte>)
    requires t != []
    requires var t1 := if minus then t[1..] else t;
             && (minus ==> t[0] == MINUS) && (zero ==> t1 != [] && t1[0] == 48) && t2 == if zero then t1[1..] else t1
    ensures t == (if minus then [MINUS] else []) + ((if zero then [48] else []) + t2)
  {
    var t1 := if minus then t[1..] else t;
    assert t1 == (if zero then [48] else []) + t2;
  }

  lemma Cut(sign: seq<Byte>, nought: seq<Byte>, digits: seq<Byte>, rest: seq<Byte>)
    ensures var t := sign + nought + digits + rest;
            && t == sign + (nought + (digits + rest))
            && t[..|t| - |rest|] == sign + nought + digits && t[|t| - |rest|..] == rest
  {}

  lemma PartsAre(x: seq<Byte>, minus: bool, zero: bool, digits: seq<Byte>, n: nat)
    requires SpellsDecimal(digits, n) && (digits != [] ==> digits[0] != 48) && (minus || zero || digits != [])
    requires x == (if minus then [MINUS] else []) + (if zero then [48] else []) + digits
    ensures NumberParts(x, minus, zero, digits, n)
  {
    hide SpellsDecimal;
    assert Text("-") == [MINUS] && Text("0") == [48];
  }

  /** The digits behind sign and zero, none unless they start with one that is not zero. */
  lemma MagnitudeTaken(t: seq<Byte>)
    ensures var (n, rest) := if t != [] && 49 <= t[0] <= 57 then ParseDigits(t, 0) else (0, t);
            var digits := t[..|t| - |rest|];
            t == digits + rest && SpellsDecimal(digits, n) && (digits != [] ==> digits[0] != 48)
            && (t != [] && 49 <= t[0] <= 57 ==> digits != [])
  {
    hide SpellsDecimal;
    NoDecimals();
    if t != [] && 49 <= t[0] <= 57 {
      DigitsTaken([], 0, t);
      var k := |t| - |ParseDigits(t, 0).1|;
      assert [] + t[..k] == t[..k] && t == t[..k] + t[k..];
      DigitsShrink(t[1..], t[0] - 48);
    }
  }

  lemma DigitsShrink(t: seq<Byte>, n: nat)
    ensures |ParseDigits(t, n).1| <= |t|
  {}

  lemma NoDecimals()
    ensures SpellsDecimal([], 0)
  {}

  // ---- values

  /** The text x, and nothing around it, stands for v; only at the end of the whole text is a string left open. */
  ghost predicate Reads(v: Json, x: seq<Byte>, last: bool)
    decreases v, 2
  {
    match v
    case Null => x == Text("null")
    case False => x == Text("false")
    case True => x == Text("true")
    case Number(n) => NumberReads(x, n)
    case String(s) => StringReads(x, s, last)
    case Array(c) => Bracketed(x, Text("[")[0], Text("]")[0]) && Entries(c, x[1..|x| - 1], false)
    case Object(c) => Bracketed(x, Text("{")[0], Text("}")[0]) && Entries(c, x[1..|x| - 1], true)
  }

  predicate Bracketed(x: seq<Byte>, left: Byte, right: Byte) {
    |x| >= 2 && x[0] == left && x[|x| - 1] == right
  }

  ghost predicate Entries(c: Nodes, x: seq<Byte>, named: bool)
    decreases c, 1
  {
    match c
    case End => Blank(x)
    case Node(name, _, _) =>
      if named then
        && name.Some?
        && exists i: nat, j: nat, k: nat :: NameAt(name.value, x, i, j, k) && Valued(c, x[k + 1..], true)
      else name.None? && Valued(c, x, false)
  }

  /** A name at i, with the colon behind it at k. */
  ghost predicate NameAt(name: seq<Byte>, x: seq<Byte>, i: nat, j: nat, k: nat) {
    && i <= j <= k < |x| && Blank(x[..i]) && StringReads(x[i..j], name, false) && Blank(x[j..k]) && x[k] == Text(":")[0]
  }

  ghost predicate Valued(c: Nodes, x: seq<Byte>, named: bool)
    requires c.Node?
    decreases c, 0
  {
    exists i: nat, j: nat, k: nat ::
      && Spaced(x, i, j, k) && Reads(c.value, x[i..j], false)
      && if c.next.End? then k == |x| else k < |x| && x[k] == Text(",")[0] && Entries(c.next, x[k + 1..], named)
  }

  predicate Spaced(x: seq<Byte>, i: nat, j: nat, k: nat) {
    i <= j <= k <= |x| && Blank(x[..i]) && Blank(x[j..k])
  }

  lemma SkipTaken(t: seq<Byte>)
    ensures var g := |t| - |Skip(t)|; t[g..] == Skip(t) && Blank(t[..g])
  {
    if t != [] && t[0] <= 32 {
      SkipTaken(t[1..]);
      var g := |t| - |Skip(t)|;
      assert t[..g] == [t[0]] + t[1..][..g - 1];
    }
  }

  /** A value is taken from the front of a text only where the text has one. */
  lemma {:induction false} ValueTaken(t: seq<Byte>)
    requires ParseValue(t).Some?
    ensures var (v, rest) := ParseValue(t).value;
            var k := |t| - |rest|;
            t[k..] == rest && Reads(v, t[..k], rest == [])
    decreases |t|, 2
  {
    hide ParseValue, ParseString, ParseNumber, ParseItems, ParseMembers, Skip, StringReads, NumberReads, Entries;
    Branch(t);
    match ParseValue(t).value.0
    case String(s) =>
      Dispatch(t);
      StringTaken(t);
    case Number(n) =>
      Dispatch(t);
      NumberTaken(t);
    case Array(c) => ArrayTaken(t);
    case Object(c) => ObjectTaken(t);
    case _ => WordTaken(t);
  }

  /** What a value starts with, from its kind. */
  lemma Branch(t: seq<Byte>)
    requires ParseValue(t).Some?
    ensures t != []
    ensures match ParseValue(t).value.0
            case Null => StartsWith(t, [110, 117, 108, 108]) && ParseValue(t).value.1 == t[4..]
            case False => StartsWith(t, [102, 97, 108, 115, 101]) && ParseValue(t).value.1 == t[5..]
            case True => StartsWith(t, [116, 114, 117, 101]) && ParseValue(t).value.1 == t[4..]
            case String(_) => t[0] == QUOTE
            case Number(_) => t[0] == MINUS || IsDigit(t[0])
            case Array(_) => t[0] == LBRACKET
            case Object(_) => t[0] == LBRACE
  {
    hide ParseString, ParseNumber, ParseItems, ParseMembers, Skip;
  }

  lemma WordTaken(t: seq<Byte>)
    requires ParseValue(t).Some? && ParseValue(t).value.0 in {Null, False, True}
    ensures var (v, rest) := ParseValue(t).value;
            var k := |t| - |rest|;
            t[k..] == rest && Reads(v, t[..k], rest == [])
  {
    hide ParseValue, Reads;
    Branch(t);
    var (v, rest) := ParseValue(t).value;
    WordReads(rest == []);
    var word: seq<Byte> :=
      if v == Null then [110, 117, 108, 108] else if v == True then [116, 114, 117, 101] else [102, 97, 108, 115, 101];
    WordIs(t, word);
  }

  lemma WordIs(t: seq<Byte>, word: seq<Byte>)
    requires StartsWith(t, word)
    ensures |word| <= |t| && t[..|word|] == word && |t[|word|..]| == |t| - |word|
  {}

  lemma WordReads(last: bool)
    ensures Reads(Null, [110, 117, 108, 108], last) && Reads(True, [116, 114, 117, 101], last)
    ensures Reads(False, [102, 97, 108, 115, 101], last)
  {
    assert Text("null") == [110, 117, 108, 108] && Text("true") == [116, 114, 117, 101];
    assert Text("false") == [102, 97, 108, 115, 101];
  }

  lemma {:induction false} ArrayTaken(t: seq<Byte>)
    requires ParseValue(t).Some? && ParseValue(t).value.0.Array?
    ensures var (v, rest) := ParseValue(t).value;
            var k := |t| - |rest|;
            t[k..] == rest && Reads(v, t[..k], rest == [])
    decreases |t|, 1
  {
    hide ParseValue, ParseString, ParseNumber, ParseItems, ParseMembers, Skip, Entries, Reads, Bracketed, Blank;
    Branch(t);
    Dispatch(t);
    var (v, rest) := ParseValue(t).value;
    var k := |t| - |rest|;
    SkipTaken(t[1..]);
    var t1 := Skip(t[1..]);
    if t1 != [] && t1[0] == RBRACKET {
      Hollow(t, t1, k);
    } else {
      ItemsSkipped(t[1..]);
      ItemsTaken(t[1..]);
      Enclosed(t, v.child, rest, false);
    }
    ArrayReads(v.child, t[..k], rest == []);
  }

  lemma ArrayReads(c: Nodes, x: seq<Byte>, last: bool)
    requires |x| >= 2 && x[0] == LBRACKET && x[|x| - 1] == RBRACKET && Entries(c, x[1..|x| - 1], false)
    ensures Reads(Array(c), x, last)
  {
    hide Entries;
    assert Text("[") == [LBRACKET] && Text("]") == [RBRACKET];
  }

  lemma {:induction false} ObjectTaken(t: seq<Byte>)
    requires ParseValue(t).Some? && ParseValue(t).value.0.Object?
    ensures var (v, rest) := ParseValue(t).value;
            var k := |t| - |rest|;
            t[k..] == rest && Reads(v, t[..k], rest == [])
    decreases |t|, 1
  {
    hide ParseValue, ParseString, ParseNumber, ParseItems, ParseMembers, Skip, Entries, Reads, Bracketed, Blank;
    Branch(t);
    Dispatch(t);
    var (v, rest) := ParseValue(t).value;
    var k := |t| - |rest|;
    SkipTaken(t[1..]);
    var t1 := Skip(t[1..]);
    if t1 != [] && t1[0] == RBRACE {
      Hollow(t, t1, k);
    } else {
      ParseSkipped(t[1..]);
      MembersTaken(t[1..]);
      Enclosed(t, v.child, rest, true);
    }
    ObjectReads(v.child, t[..k], rest == []);
  }

  lemma ObjectReads(c: Nodes, x: seq<Byte>, last: bool)
    requires |x| >= 2 && x[0] == LBRACE && x[|x| - 1] == RBRACE && Entries(c, x[1..|x| - 1], true)
    ensures Reads(Object(c), x, last)
  {
    hide Entries;
    assert Text("{") == [LBRACE] && Text("}") == [RBRACE];
  }

  /** Entries behind the first bracket, up to the second one and the rest. */
  lemma Enclosed(t: seq<Byte>, c: Nodes, rest: seq<Byte>, named: bool)
    requires t != [] && |rest| + 2 <= |t|
    requires var e := |t| - |rest| - 2; t[1..][e + 1..] == rest && Entries(c, t[1..][..e], named)
    ensures var k := |t| - |rest|;
            && t[k..] == rest && t[..k][0] == t[0] && t[..k][k - 1] == t[1..][k - 2]
            && Entries(c, t[..k][1..k - 1], named)
  {
    hide Entries;
    var k := |t| - |rest|;
    assert t[..k][1..k - 1] == t[1..][..k - 2];
    assert t[1..][k - 1..] == t[k..];
  }

  /** Nothing but white space between two brackets. */
  lemma Hollow(t: seq<Byte>, t1: seq<Byte>, k: nat)
    requires t != [] && t1 != [] && |t1| < |t| && k == |t| - |t1| + 1
    requires t[1..][|t| - 1 - |t1|..] == t1 && Blank(t[1..][..|t| - 1 - |t1|])
    ensures 2 <= k <= |t| && t[..k][0] == t[0] && t[..k][k - 1] == t1[0] && t[k..] == t1[1..]
    ensures Entries(End, t[..k][1..k - 1], true) && Entries(End, t[..k][1..k - 1], false)
  {
    hide Blank;
    assert t[..k][1..k - 1] == t[1..][..k - 2];
    assert t[k..] == t[1..][k - 2..][1..];
    NothingIn(t[..k][1..k - 1]);
  }

  lemma NothingIn(x: seq<Byte>)
    requires Blank(x)
    ensures Entries(End, x, true) && Entries(End, x, false)
  {}

  /** A value with its white space at the front of a text. */
  lemma ValueAt(t: seq<Byte>)
    requires ParseValue(Skip(t)).Some? && Skip(ParseValue(Skip(t)).value.1) != []
    requires var (v, rest) := ParseValue(Skip(t)).value;
             var k := |Skip(t)| - |rest|;
             Skip(t)[k..] == rest && Reads(v, Skip(t)[..k], rest == [])
    ensures var (v, rest) := ParseValue(Skip(t)).value;
            var i, j, k := |t| - |Skip(t)|, |t| - |rest|, |t| - |Skip(rest)|;
            && i <= j <= k < |t| && Blank(t[..i]) && Reads(v, t[i..j], false) && Blank(t[j..k])
            && t[k..] == Skip(rest)
  {
    hide ParseValue, Skip, Reads, Blank;
    SkipTaken(t);
    var (v, rest) := ParseValue(Skip(t)).value;
    SkipTaken(rest);
    NotLast(rest);
    Pieces(t, Skip(t), rest, Skip(rest));
  }

  /** A text cut twice from behind. */
  lemma Pieces(t: seq<Byte>, t1: seq<Byte>, rest: seq<Byte>, t2: seq<Byte>)
    requires |t2| <= |rest| <= |t1| <= |t|
    requires t[|t| - |t1|..] == t1 && t1[|t1| - |rest|..] == rest && rest[|rest| - |t2|..] == t2
    ensures var i, j, k := |t| - |t1|, |t| - |rest|, |t| - |t2|;
            t[i..j] == t1[..j - i] && t[j..k] == rest[..k - j] && t[k..] == t2
  {}

  lemma NotLast(t: seq<Byte>)
    requires Skip(t) != []
    ensures t != []
  {}

  /** Put together in the first e bytes of a text. */
  lemma ValuedFrom(c: Nodes, t: seq<Byte>, e: nat, i: nat, j: nat, k: nat, named: bool)
    requires c.Node? && i <= j <= k <= e <= |t| && Blank(t[..i]) && Blank(t[j..k]) && Reads(c.value, t[i..j], false)
    requires if c.next.End? then k == e else k < e && t[k] == COMMA && Entries(c.next, t[k + 1..e], named)
    ensures Valued(c, t[..e], named)
  {
    hide Reads, Entries, Blank;
    assert Text(",") == [COMMA];
    var x := t[..e];
    assert x[..i] == t[..i] && x[i..j] == t[i..j] && x[j..k] == t[j..k];
    assert k < e ==> x[k + 1..] == t[k + 1..e];
    assert Spaced(x, i, j, k);
  }

  lemma {:induction false} ItemsTaken(t: seq<Byte>)
    requires ParseItems(t).Some?
    ensures var (c, rest) := ParseItems(t).value;
            var e := |t| - |rest| - 1;
            && e >= 0 && t[e] == RBRACKET && t[e + 1..] == rest && c.Node? && Entries(c, t[..e], false)
    decreases |t|, 3
  {
    hide ParseItems, ParseValue, Skip, Reads, Blank, Valued, Entries;
    ItemsStep(t);
    var (c, rest) := ParseItems(t).value;
    SkipIsShort(t);
    ValueTaken(Skip(t));
    ValueAt(t);
    var after := ParseValue(Skip(t)).value.1;
    var i, j, k := |t| - |Skip(t)|, |t| - |after|, |t| - |Skip(after)|;
    var e := |t| - |rest| - 1;
    Behind(t, k);
    if t[k] == COMMA {
      ItemsTaken(t[k + 1..]);
      Front(t, k + 1, e);
    }
    ValuedFrom(c, t, e, i, j, k, false);
    UnnamedEntries(c, t[..e]);
  }

  /** How parse_array goes on behind a value. */
  lemma ItemsStep(t: seq<Byte>)
    requires ParseItems(t).Some?
    ensures ParseValue(Skip(t)).Some?
    ensures var (c, end) := ParseItems(t).value;
            var (v, rest) := ParseValue(Skip(t)).value;
            var t1 := Skip(rest);
            && t1 != [] && c.Node? && c.name == None && c.value == v
            && if t1[0] == COMMA then ParseItems(t1[1..]) == Some((c.next, end))
               else t1[0] == RBRACKET && c.next == End && end == t1[1..]
  {
    hide ParseValue, Skip;
  }

  lemma UnnamedEntries(c: Nodes, x: seq<Byte>)
    requires c.Node? && c.name == None && Valued(c, x, false)
    ensures Entries(c, x, false)
  {
    hide Valued;
  }

  lemma Behind<T>(t: seq<T>, k: nat)
    requires k < |t|
    ensures t[k..][0] == t[k] && t[k..][1..] == t[k + 1..]
  {}

  lemma Front<T>(t: seq<T>, k: nat, e: nat)
    requires k <= e <= |t|
    ensures t[k..][..e - k] == t[k..e] && (e < |t| ==> t[k..][e - k] == t[e] && t[k..][e - k + 1..] == t[e + 1..])
  {}

  lemma SkipIsShort(t: seq<Byte>)
    ensures |Skip(t)| <= |t|
  {}

  /** The value of a member, up to the bracket behind the last one. */
  lemma {:induction false} MemberValue(t: seq<Byte>, c: Nodes, rest: seq<Byte>)
    requires c.Node? && ParseValue(Skip(t)).Some? && Skip(ParseValue(Skip(t)).value.1) != []
    requires var (v, after) := ParseValue(Skip(t)).value;
             var t2 := Skip(after);
             && c.value == v
             && if c.next.End? then t2[0] == RBRACE && rest == t2[1..]
                else t2[0] == COMMA && ParseMembers(t2[1..]) == Some((c.next, rest))
    ensures var e := |t| - |rest| - 1;
            && e >= 0 && t[e] == RBRACE && t[e + 1..] == rest && Valued(c, t[..e], true)
    decreases |t|, 3
  {
    hide ParseValue, Skip, Reads, Blank, Valued, ParseMembers, Entries;
    SkipIsShort(t);
    ValueTaken(Skip(t));
    ValueAt(t);
    var after := ParseValue(Skip(t)).value.1;
    var i, j, k := |t| - |Skip(t)|, |t| - |after|, |t| - |Skip(after)|;
    var e := |t| - |rest| - 1;
    Behind(t, k);
    if t[k] == COMMA {
      MembersTaken(t[k + 1..]);
      Front(t, k + 1, e);
    }
    ValuedFrom(c, t, e, i, j, k, true);
  }

  lemma {:induction false} MembersTaken(t: seq<Byte>)
    requires ParseMembers(t).Some?
    ensures var (c, rest) := ParseMembers(t).value;
            var e := |t| - |rest| - 1;
            && e >= 0 && t[e] == RBRACE && t[e + 1..] == rest && c.Node? && Entries(c, t[..e], true)
    decreases |t|, 4
  {
    hide ParseValue, ParseString, Skip, Reads, Blank, Valued, StringReads;
    var (c, rest) := ParseMembers(t).value;
    var (name, afterName) := ParseString(Skip(t)).value;
    NameTaken(t);
    var k := |t| - |Skip(afterName)|;
    var e := |t| - |rest| - 1;
    assert t[k..][1..] == t[k + 1..];
    MemberValue(t[k + 1..], c, rest);
    assert t[..e][k + 1..] == t[k + 1..][..e - k - 1];
    NameIn(name, t, e, |t| - |Skip(t)|, |t| - |afterName|, k);
  }

  lemma NameTaken(t: seq<Byte>)
    requires ParseString(Skip(t)).Some?
    requires var after := Skip(ParseString(Skip(t)).value.1); after != [] && after[0] == COLON
    ensures var (name, rest) := ParseString(Skip(t)).value;
            var i, j, k := |t| - |Skip(t)|, |t| - |rest|, |t| - |Skip(rest)|;
            NameAt(name, t, i, j, k) && t[k..] == Skip(rest)
  {
    hide ParseString, Skip, StringReads, Blank;
    assert Text(":") == [COLON];
    var (name, rest) := ParseString(Skip(t)).value;
    SkipTaken(t);
    StringTaken(Skip(t));
    SkipTaken(rest);
    NotLast(rest);
    Pieces(t, Skip(t), rest, Skip(rest));
    assert t[|t| - |Skip(rest)|] == Skip(rest)[0];
  }

  lemma NameIn(name: seq<Byte>, t: seq<Byte>, e: nat, i: nat, j: nat, k: nat)
    requires k < e <= |t| && NameAt(name, t, i, j, k)
    ensures NameAt(name, t[..e], i, j, k)
  {
    hide StringReads, Blank;
    assert t[..e][..i] == t[..i] && t[..e][i..j] == t[i..j] && t[..e][j..k] == t[j..k];
  }

  /** The text from i to j, behind white space, stands for the value; what follows is not looked at. */
  ghost predicate Within(t: seq<Byte>, i: nat, j: nat, v: Json) {
    i <= j <= |t| && Blank(t[..i]) && Reads(v, t[i..j], j == |t|)
  }

  /** What cJSON_Parse takes is white space, a text of the value, and anything behind it. */
  lemma ParsedIsText(t: seq<Byte>)
    requires ParseValue(Skip(t)).Some?
    ensures exists i: nat, j: nat :: Within(t, i, j, ParseValue(Skip(t)).value.0)
  {
    hide ParseValue, Skip, Reads, Blank;
    SkipTaken(t);
    ValueTaken(Skip(t));
    var (v, rest) := ParseValue(Skip(t)).value;
    Placed(t, Skip(t), rest, v);
  }

  lemma Placed(t: seq<Byte>, t1: seq<Byte>, rest: seq<Byte>, v: Json)
    requires |rest| <= |t1| <= |t| && t[|t| - |t1|..] == t1 && Blank(t[..|t| - |t1|])
    requires Reads(v, t1[..|t1| - |rest|], rest == [])
    ensures Within(t, |t| - |t1|, |t| - |rest|, v)
  {
    hide Reads, Blank;
    var i, j := |t| - |t1|, |t| - |rest|;
    assert t1[..j - i] == t[i..j];
  }
}
