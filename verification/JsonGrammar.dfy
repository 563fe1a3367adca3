/**
 JSON texts as RFC 8259 has them, with any white space and any spelling of a
 string, against the parser: whoever wrote a text, it is read as what it means.
 */
module JsonGrammar {
  import opened Bytes
  import opened HexDigits
  import opened CJson

  // ---- strings

  /**
   How a character of a string is written: as itself, as one of the short escapes, or as a code unit in hexadecimal.
   */
  datatype Spelling = Plain(c: Byte) | Short(letter: Byte) | Unit(hex: seq<Byte>, u: nat)

  /** The short escapes of RFC 8259 section 7, and what they stand for. */
  function ShortLetters(): (r: seq<Byte>)
    ensures |r| == 8
  {
    Text("\"\\/bfnrt")
  }

  function ShortMeanings(): (r: seq<Byte>)
    ensures |r| == 8
  {
    [0x22, 0x5c, 0x2f, 0x08, 0x0c, 0x0a, 0x0d, 0x09]
  }

  /** Spellings of characters other than NUL and of the first plane outside the surrogates. */
  predicate Right(x: Spelling) {
    match x
    case Plain(c) => c >= 0x20 && c != QUOTE && c != BACKSLASH
    case Short(letter) => letter in ShortLetters()
    case Unit(hex, u) => |hex| == 4 && Spells(hex, u) && 0 < u < 0x10000 && !(0xD800 <= u <= 0xDFFF)
  }

  function ShowChar(x: Spelling): (r: seq<Byte>)
    ensures |r| >= 1
  {
    match x
    case Plain(c) => [c]
    case Short(letter) => Text("\\") + [letter]
    case Unit(hex, _) => Text("\\u") + hex
  }

  function ShowChars(cs: seq<Spelling>): seq<Byte> {
    if cs == [] then [] else ShowChar(cs[0]) + ShowChars(cs[1..])
  }

  function ShowString(cs: seq<Spelling>): seq<Byte> {
    Text("\"") + ShowChars(cs) + Text("\"")
  }

  /** The code point the bytes stand for, all of them and in the shortest form: RFC 3629 section 3. */
  function ReadUtf8(b: seq<Byte>): Option<nat> {
    if |b| == 1 && b[0] < 0x80 then Some(b[0])
    else if |b| == 2 && b[0] / 32 == 6 && b[1] / 64 == 2 then
      var u := b[0] as int % 32 * 64 + b[1] % 64;
      if u >= 0x80 then Some(u) else None
    else if |b| == 3 && b[0] / 16 == 14 && b[1] / 64 == 2 && b[2] / 64 == 2 then
      var u := (b[0] as int % 16 * 64 + b[1] % 64) * 64 + b[2] % 64;
      if u >= 0x800 && !(0xD800 <= u <= 0xDFFF) then Some(u) else None
    else None
  }

  /** The bytes a spelling means. */
  ghost predicate Means(x: Spelling, b: seq<Byte>) {
    match x
    case Plain(c) => b == [c]
    case Short(letter) => exists i :: 0 <= i < 8 && ShortLetters()[i] == letter && b == [ShortMeanings()[i]]
    case Unit(_, u) => ReadUtf8(b) == Some(u)
  }

  lemma Utf8Reads(u: nat)
    requires 0 < u < 0x10000 && !(0xD800 <= u <= 0xDFFF)
    ensures ReadUtf8(Utf8(u)) == Some(u)
  {
    if u >= 0x800 {
      assert (0xE0 + u / 4096) / 16 == 14 && (0xE0 + u / 4096) % 16 == u / 4096;
      assert (0x80 + u / 64 % 64) / 64 == 2 && (0x80 + u / 64 % 64) % 64 == u / 64 % 64;
      assert u / 64 == u / 4096 * 64 + u / 64 % 64;
    }
  }

  lemma HexOf(d: nat, c: Byte)
    requires d < 16 && (c == SmallDigits()[d] || c == CapitalDigits()[d])
    ensures HexValue(c) == Some(d)
  {
    hide SmallDigits, CapitalDigits;
    SmallDigit(d);
    CapitalDigit(d);
  }

  /** Four digits are read as the number they spell. */
  lemma UnitParses(hex: seq<Byte>, u: nat, rest: seq<Byte>)
    requires Right(Unit(hex, u))
    ensures ParseUnicode(hex + rest) == Some(Utf8(u))
  {
    hide SmallDigits, CapitalDigits, HexValue, Utf8;
    var t3, t2, t1 := hex[..3], hex[..3][..2], hex[..3][..2][..1];
    assert Spells(t3, u / 16) && Spells(t2, u / 16 / 16) && Spells(t1, u / 16 / 16 / 16)
           && Spells(t1[..0], u / 16 / 16 / 16 / 16);
    HexOf(u % 16, hex[3]);
    HexOf(u / 16 % 16, hex[2]);
    HexOf(u / 16 / 16 % 16, hex[1]);
    HexOf(u / 16 / 16 / 16 % 16, hex[0]);
    UnicodePrefix(hex, rest);
  }

  /** The bytes the parser stores for a spelling. */
  function BytesOf(x: Spelling): seq<Byte>
    requires Right(x)
  {
    match x
    case Plain(c) => [c]
    case Short(letter) => [ShortMeaning(letter)]
    case Unit(_, u) => Utf8(u)
  }

  function ShortMeaning(letter: Byte): Byte {
    if letter == 98 then 8 else if letter == 102 then 12 else if letter == 110 then 10
    else if letter == 114 then 13 else if letter == 116 then 9 else letter
  }

  lemma ShortParses(letter: Byte, rest: seq<Byte>)
    requires letter in ShortLetters()
    ensures ParseChar([BACKSLASH, letter] + rest) == Some(([ShortMeaning(letter)], 2))
    ensures exists i :: 0 <= i < 8 && ShortLetters()[i] == letter && ShortMeaning(letter) == ShortMeanings()[i]
  {
    var i :| 0 <= i < 8 && ShortLetters()[i] == letter;
    assert i in {0, 1, 2, 3, 4, 5, 6, 7};
    assert ShortMeaning(letter) == ShortMeanings()[i];
  }

  /** One character, whatever its spelling, is stored as the bytes it means. */
  lemma CharParses(x: Spelling, rest: seq<Byte>)
    requires Right(x)
    ensures ShowChar(x)[0] != QUOTE && Means(x, BytesOf(x))
    ensures ParseChar(ShowChar(x) + rest) == Some((BytesOf(x), |ShowChar(x)|))
  {
    hide Spells, ParseUnicode, Utf8, ReadUtf8;
    match x
    case Plain(c) =>
    case Short(letter) =>
      ShortParses(letter, rest);
      assert Text("\\") + [letter] == [BACKSLASH, letter];
    case Unit(hex, u) =>
      UnitParses(hex, u, rest);
      Utf8Reads(u);
      var t := ShowChar(x) + rest;
      assert t[2..] == hex + rest;
  }

  function StringOf(cs: seq<Spelling>): seq<Byte>
    requires forall x <- cs :: Right(x)
  {
    if cs == [] then [] else BytesOf(cs[0]) + StringOf(cs[1..])
  }

  /** The text of a string means these bytes, character by character. */
  ghost predicate MeansAll(cs: seq<Spelling>, b: seq<Byte>) {
    if cs == [] then b == []
    else exists n: nat :: n <= |b| && Means(cs[0], b[..n]) && MeansAll(cs[1..], b[n..])
  }

  lemma {:induction false} StringMeans(cs: seq<Spelling>)
    requires forall x <- cs :: Right(x)
    ensures MeansAll(cs, StringOf(cs))
  {
    hide Means, BytesOf, Right;
    if cs != [] {
      CharParses(cs[0], []);
      StringMeans(cs[1..]);
      var b, n := StringOf(cs), |BytesOf(cs[0])|;
      assert b[..n] == BytesOf(cs[0]) && b[n..] == StringOf(cs[1..]);
    }
  }

  lemma {:induction false} CharsParse(cs: seq<Spelling>, rest: seq<Byte>)
    requires forall x <- cs :: Right(x)
    ensures ParseChars(ShowChars(cs) + ([QUOTE] + rest)) == Some((StringOf(cs), rest))
  {
    hide ShowChar, ParseChar, Right, BytesOf;
    if cs == [] {
      assert ([QUOTE] + rest)[1..] == rest;
      assert [] + ([QUOTE] + rest) == [QUOTE] + rest;
    } else {
      var e, tail := ShowChar(cs[0]), ShowChars(cs[1..]) + ([QUOTE] + rest);
      assert ShowChars(cs) + ([QUOTE] + rest) == e + tail;
      CharParses(cs[0], tail);
      assert (e + tail)[|e|..] == tail;
      CharsParse(cs[1..], rest);
    }
  }

  lemma StringParses(cs: seq<Spelling>, rest: seq<Byte>)
    requires forall x <- cs :: Right(x)
    ensures ParseString(ShowString(cs) + rest) == Some((StringOf(cs), rest))
    ensures ShowString(cs) != [] && ShowString(cs)[0] == QUOTE
  {
    hide ParseChars, ShowChars, StringOf;
    var t := ShowString(cs) + rest;
    assert Text("\"") == [QUOTE];
    assert t[1..] == ShowChars(cs) + ([QUOTE] + rest);
    CharsParse(cs, rest);
  }

  // ---- values

  datatype Value =
    | NullText | FalseText | TrueText
    | NumberText(minus: bool, n: nat)
    | StringText(chars: seq<Spelling>)
    | ArrayText(gap: seq<Byte>, elems: Elems)
    | ObjectText(gap: seq<Byte>, fields: Fields)

  datatype Elems = NoElem | Elem(before: seq<Byte>, value: Value, after: seq<Byte>, next: Elems)

  datatype Fields =
    | NoField
    | Field(before: seq<Byte>, name: seq<Spelling>, toColon: seq<Byte>, fromColon: seq<Byte>,
            value: Value, after: seq<Byte>, next: Fields)

  /** White space, and any other control character but NUL, which the parser skips too. */
  predicate White(s: seq<Byte>) {
    forall i :: 0 <= i < |s| ==> 0 < s[i] <= 32
  }

  predicate Proper(v: Value) {
    match v
    case NumberText(minus, n) => INT_MIN <= Signed(minus, n) <= INT_MAX
    case StringText(cs) => forall x <- cs :: Right(x)
    case ArrayText(gap, elems) => White(gap) && ProperElems(elems)
    case ObjectText(gap, fields) => White(gap) && ProperFields(fields)
    case _ => true
  }

  predicate ProperElems(e: Elems) {
    match e
    case NoElem => true
    case Elem(before, v, after, next) => White(before) && Proper(v) && White(after) && ProperElems(next)
  }

  predicate ProperFields(f: Fields) {
    match f
    case NoField => true
    case Field(before, name, toColon, fromColon, v, after, next) =>
      && White(before) && (forall x <- name :: Right(x)) && White(toColon) && White(fromColon)
      && Proper(v) && White(after) && ProperFields(next)
  }

  function Decimal(n: nat): seq<Byte> {
    (if n < 10 then [] else Decimal(n / 10)) + [Text("0123456789")[n % 10]]
  }

  function Show(v: Value): seq<Byte> {
    match v
    case NullText => Text("null")
    case FalseText => Text("false")
    case TrueText => Text("true")
    case NumberText(minus, n) => (if minus then Text("-") else []) + Decimal(n)
    case StringText(cs) => ShowString(cs)
    case ArrayText(gap, elems) => Text("[") + (gap + (ShowElems(elems) + Text("]")))
    case ObjectText(gap, fields) => Text("{") + (gap + (ShowFields(fields) + Text("}")))
  }

  function ShowElems(e: Elems): seq<Byte> {
    match e
    case NoElem => []
    case Elem(before, v, after, next) =>
      before + (Show(v) + (after + if next.NoElem? then [] else Text(",") + ShowElems(next)))
  }

  function ShowFields(f: Fields): seq<Byte> {
    match f
    case NoField => []
    case Field(before, name, toColon, fromColon, v, after, next) =>
      before + (ShowString(name) + (toColon + (Text(":") + (fromColon + (Show(v)
        + (after + if next.NoField? then [] else Text(",") + ShowFields(next)))))))
  }

  function Signed(minus: bool, n: nat): int {
    if minus then -(n as int) else n
  }

  /** The item a text stands for. */
  function Item(v: Value): Json
    requires Proper(v)
  {
    match v
    case NullText => Null
    case FalseText => False
    case TrueText => True
    case NumberText(minus, n) => Number(Signed(minus, n))
    case StringText(cs) => String(StringOf(cs))
    case ArrayText(_, elems) => Array(ItemsOf(elems))
    case ObjectText(_, fields) => Object(MembersOf(fields))
  }

  function ItemsOf(e: Elems): Nodes
    requires ProperElems(e)
  {
    match e
    case NoElem => End
    case Elem(_, v, _, next) => Node(None, Item(v), ItemsOf(next))
  }

  function MembersOf(f: Fields): Nodes
    requires ProperFields(f)
  {
    match f
    case NoField => End
    case Field(_, name, _, _, v, _, next) => Node(Some(StringOf(name)), Item(v), MembersOf(next))
  }

  // ---- reading

  lemma {:induction false} DecimalIsDigits(n: nat)
    ensures Decimal(n) == Digits(n)
  {
    if n >= 10 {
      DecimalIsDigits(n / 10);
    }
  }

  lemma NumberParses(minus: bool, n: nat, rest: seq<Byte>)
    requires ValueEnds(rest)
    ensures ParseValue(Show(NumberText(minus, n)) + rest) == Some((Number(Signed(minus, n)), rest))
  {
    hide ParseValue, Digits, ParseDigits, Decimal;
    var d := Digits(n);
    DecimalIsDigits(n);
    DigitsStart(n);
    NatParses(n, rest);
    var t := Show(NumberText(minus, n)) + rest;
    assert Text("-") == [MINUS];
    if minus {
      assert t[1..] == d + rest;
    } else {
      assert t == d + rest && t[0] == d[0] != MINUS;
    }
    Dispatch(t);
  }

  /** The first character of a value, which no gap and no bracket can be taken for. */
  lemma Starts(v: Value, rest: seq<Byte>)
    requires Proper(v)
    ensures Show(v) != [] && Show(v)[0] > 32 && Show(v)[0] != RBRACKET && Show(v)[0] != RBRACE
    ensures Skip(Show(v) + rest) == Show(v) + rest
  {
    hide ShowElems, ShowFields, ShowChars, Decimal, Digits;
    if v.NumberText? {
      DecimalIsDigits(v.n);
      DigitsStart(v.n);
    }
  }

  lemma WordParses(v: Value, rest: seq<Byte>)
    requires v.NullText? || v.FalseText? || v.TrueText?
    ensures ParseValue(Show(v) + rest) == Some((Item(v), rest))
  {
    hide ParseValue;
    Words(Item(v), rest);
    assert Show(v) == PrintValue(Item(v), 0, false);
  }

  lemma Between(gap: seq<Byte>, c: Byte, rest: seq<Byte>)
    requires White(gap) && c > 32
    ensures Skip(gap + ([c] + rest)) == [c] + rest
  {
    SkipPrefix(gap, [c] + rest);
    SkipStop(c, rest);
  }

  lemma ItemsSkipped(t: seq<Byte>)
    ensures ParseItems(Skip(t)) == ParseItems(t)
  {
    hide ParseValue, Skip;
    SkipTwice(t);
  }

  lemma Ends(gap: seq<Byte>, c: Byte, rest: seq<Byte>)
    requires White(gap) && c in [COMMA, RBRACKET, RBRACE]
    ensures ValueEnds(gap + ([c] + rest))
  {
    var t := gap + ([c] + rest);
    assert t[0] == if gap == [] then c else gap[0];
  }

  /** Every text of a value, whatever follows that does not extend a number, is read as what it means. */
  lemma {:induction false} TextParses(v: Value, rest: seq<Byte>)
    requires Proper(v) && ValueEnds(rest)
    ensures ParseValue(Show(v) + rest) == Some((Item(v), rest))
    decreases v, 0
  {
    match v
    case NumberText(minus, n) => NumberParses(minus, n, rest);
    case StringText(cs) =>
      StringParses(cs, rest);
      StringDispatch(cs, rest);
    case ArrayText(gap, elems) => ArrayParses(gap, elems, rest);
    case ObjectText(gap, fields) => ObjectParses(gap, fields, rest);
    case _ => WordParses(v, rest);
  }

  lemma StringDispatch(cs: seq<Spelling>, rest: seq<Byte>)
    requires forall x <- cs :: Right(x)
    ensures ParseValue(ShowString(cs) + rest) == Some((String(StringOf(cs)), rest))
  {
    hide ParseString, ParseValue, ShowString;
    StringParses(cs, rest);
    Dispatch(ShowString(cs) + rest);
  }

  lemma {:induction false} ArrayParses(gap: seq<Byte>, elems: Elems, rest: seq<Byte>)
    requires White(gap) && ProperElems(elems)
    ensures ParseValue(Show(ArrayText(gap, elems)) + rest) == Some((Array(ItemsOf(elems)), rest))
    decreases elems, 1
  {
    hide ParseItems, ParseValue, ShowElems, Skip;
    var t := Show(ArrayText(gap, elems)) + rest;
    var body := ShowElems(elems) + ([RBRACKET] + rest);
    assert Text("[") == [LBRACKET] && Text("]") == [RBRACKET];
    assert t[1..] == gap + body;
    Dispatch(t);
    SkipPrefix(gap, body);
    if elems.NoElem? {
      NoElems();
      assert body == [RBRACKET] + rest;
      SkipStop(RBRACKET, rest);
      assert ([RBRACKET] + rest)[1..] == rest;
    } else {
      ElemsParse(elems, rest);
      ElemsStart(elems, [RBRACKET] + rest);
      ItemsSkipped(body);
    }
  }

  lemma NoElems()
    ensures ShowElems(NoElem) == [] && ShowFields(NoField) == []
  {}

  lemma ElemsStart(e: Elems, rest: seq<Byte>)
    requires ProperElems(e) && e.Elem?
    ensures var p := Skip(ShowElems(e) + rest); p != [] && p[0] != RBRACKET
  {
    hide Show, Skip;
    var more := e.after + if e.next.NoElem? then [] else Text(",") + ShowElems(e.next);
    assert ShowElems(e) + rest == e.before + (Show(e.value) + (more + rest));
    SkipPrefix(e.before, Show(e.value) + (more + rest));
    Starts(e.value, more + rest);
  }

  lemma {:induction false} ElemsParse(e: Elems, rest: seq<Byte>)
    requires ProperElems(e) && e.Elem?
    ensures ParseItems(ShowElems(e) + ([RBRACKET] + rest)) == Some((ItemsOf(e), rest))
    decreases e, 0
  {
    hide Show, ParseValue, Skip, Item;
    var c := if e.next.NoElem? then RBRACKET else COMMA;
    var tail := if e.next.NoElem? then rest else ShowElems(e.next) + ([RBRACKET] + rest);
    var after := e.after + ([c] + tail);
    var t := ShowElems(e) + ([RBRACKET] + rest);
    ElemsAre(e, rest);
    SkipPrefix(e.before, Show(e.value) + after);
    Starts(e.value, after);
    Ends(e.after, c, tail);
    TextParses(e.value, after);
    Between(e.after, c, tail);
    assert ([c] + tail)[1..] == tail;
    if e.next.Elem? {
      ElemsParse(e.next, rest);
    }
  }

  lemma ElemsAre(e: Elems, rest: seq<Byte>)
    requires e.Elem?
    ensures var c := if e.next.NoElem? then RBRACKET else COMMA;
            var tail := if e.next.NoElem? then rest else ShowElems(e.next) + ([RBRACKET] + rest);
            ShowElems(e) + ([RBRACKET] + rest) == e.before + (Show(e.value) + (e.after + ([c] + tail)))
  {
    hide Show;
    assert Text(",") == [COMMA];
  }

  lemma {:induction false} ObjectParses(gap: seq<Byte>, fields: Fields, rest: seq<Byte>)
    requires White(gap) && ProperFields(fields)
    ensures ParseValue(Show(ObjectText(gap, fields)) + rest) == Some((Object(MembersOf(fields)), rest))
    decreases fields, 1
  {
    hide ParseMembers, ParseValue, ShowFields, Skip;
    var t := Show(ObjectText(gap, fields)) + rest;
    var body := ShowFields(fields) + ([RBRACE] + rest);
    assert Text("{") == [LBRACE] && Text("}") == [RBRACE];
    assert t[1..] == gap + body;
    Dispatch(t);
    SkipPrefix(gap, body);
    if fields.NoField? {
      NoElems();
      assert body == [RBRACE] + rest;
      SkipStop(RBRACE, rest);
      assert ([RBRACE] + rest)[1..] == rest;
    } else {
      FieldsParse(fields, rest);
      FieldsStart(fields, rest);
      ParseSkipped(body);
    }
  }

  /** A field, taken apart at the places the parser stops at. */
  lemma FieldsAre(f: Fields, rest: seq<Byte>)
    requires f.Field?
    ensures var c := if f.next.NoField? then RBRACE else COMMA;
            var tail := if f.next.NoField? then rest else ShowFields(f.next) + ([RBRACE] + rest);
            var value := f.fromColon + (Show(f.value) + (f.after + ([c] + tail)));
            ShowFields(f) + ([RBRACE] + rest) == f.before + (ShowString(f.name) + (f.toColon + ([COLON] + value)))
  {
    hide Show, ShowString;
    assert Text(",") == [COMMA] && Text(":") == [COLON];
    var more := if f.next.NoField? then [] else Text(",") + ShowFields(f.next);
    Nested(f.before, ShowString(f.name), f.toColon, [COLON], f.fromColon, Show(f.value), f.after, more,
           [RBRACE] + rest);
    var c := if f.next.NoField? then RBRACE else COMMA;
    var tail := if f.next.NoField? then rest else ShowFields(f.next) + ([RBRACE] + rest);
    assert more + ([RBRACE] + rest) == [c] + tail;
  }

  lemma Nested<T>(a: seq<T>, b: seq<T>, c: seq<T>, d: seq<T>, e: seq<T>, f: seq<T>, g: seq<T>, h: seq<T>, rest: seq<T>)
    ensures (a + (b + (c + (d + (e + (f + (g + h))))))) + rest == a + (b + (c + (d + (e + (f + (g + (h + rest)))))))
  {}

  lemma FieldsStart(f: Fields, rest: seq<Byte>)
    requires ProperFields(f) && f.Field?
    ensures var p := Skip(ShowFields(f) + ([RBRACE] + rest)); p != [] && p[0] == QUOTE
  {
    hide Show, ShowString, Skip, ShowFields;
    var c := if f.next.NoField? then RBRACE else COMMA;
    var tail := if f.next.NoField? then rest else ShowFields(f.next) + ([RBRACE] + rest);
    var more := f.toColon + ([COLON] + (f.fromColon + (Show(f.value) + (f.after + ([c] + tail)))));
    FieldsAre(f, rest);
    NameStarts(f.before, f.name, more);
  }

  lemma NameStarts(before: seq<Byte>, name: seq<Spelling>, more: seq<Byte>)
    requires White(before) && forall x <- name :: Right(x)
    ensures Skip(before + (ShowString(name) + more)) == ShowString(name) + more
    ensures (ShowString(name) + more)[0] == QUOTE
  {
    hide ShowString;
    StringParses(name, more);
    var s := ShowString(name) + more;
    assert s == [QUOTE] + s[1..];
    Between(before, QUOTE, s[1..]);
  }

  lemma {:induction false} FieldsParse(f: Fields, rest: seq<Byte>)
    requires ProperFields(f) && f.Field?
    ensures ParseMembers(ShowFields(f) + ([RBRACE] + rest)) == Some((MembersOf(f), rest))
    decreases f, 0
  {
    hide Show, ShowString, ShowFields, ParseValue, ParseString, ParseMembers, Skip, Item, StringOf;
    var c := if f.next.NoField? then RBRACE else COMMA;
    var tail := if f.next.NoField? then rest else ShowFields(f.next) + ([RBRACE] + rest);
    var after := f.after + ([c] + tail);
    var value := f.fromColon + (Show(f.value) + after);
    var colon := f.toColon + ([COLON] + value);
    FieldsAre(f, rest);
    NameStarts(f.before, f.name, colon);
    StringParses(f.name, colon);
    Between(f.toColon, COLON, value);
    assert ([COLON] + value)[1..] == value;
    SkipPrefix(f.fromColon, Show(f.value) + after);
    Starts(f.value, after);
    Ends(f.after, c, tail);
    TextParses(f.value, after);
    Between(f.after, c, tail);
    assert ([c] + tail)[1..] == tail;
    OneMember(ShowFields(f) + ([RBRACE] + rest), StringOf(f.name), colon, value, Item(f.value), after);
    if f.next.Field? {
      FieldsParse(f.next, rest);
    }
  }

  /** What parse_object makes of a text once it has the name, the colon and the value. */
  lemma OneMember(t: seq<Byte>, name: seq<Byte>, colon: seq<Byte>, value: seq<Byte>, v: Json, after: seq<Byte>)
    requires ParseString(Skip(t)) == Some((name, colon)) && Skip(colon) == [COLON] + value
    requires ParseValue(Skip(value)) == Some((v, after)) && Skip(after) != []
    ensures Skip(after)[0] == RBRACE ==> ParseMembers(t) == Some((Node(Some(name), v, End), Skip(after)[1..]))
    ensures Skip(after)[0] == COMMA ==>
              ParseMembers(t) == match ParseMembers(Skip(after)[1..])
                                 case None => None
                                 case Some((c, end)) => Some((Node(Some(name), v, c), end))
  {
    hide ParseString, ParseValue, Skip;
    assert ([COLON] + value)[1..] == value;
  }

  // ---- printed texts

  function SpellingOf(c: Byte): Spelling {
    if c > 31 && c != QUOTE && c != BACKSLASH then Plain(c)
    else if c == QUOTE || c == BACKSLASH then Short(c)
    else if c == 8 then Short(98) else if c == 12 then Short(102) else if c == 10 then Short(110)
    else if c == 13 then Short(114) else if c == 9 then Short(116)
    else Unit([48, 48, Hex(c / 16), Hex(c % 16)], c)
  }

  lemma HexDigitsAre(d: nat)
    requires d < 16
    ensures Hex(d) == SmallDigits()[d]
  {}

  lemma UnitSpells(c: Byte)
    requires c < 32
    ensures Spells([48, 48, Hex(c / 16), Hex(c % 16)], c)
  {
    hide Hex, SmallDigits, CapitalDigits, Spells;
    HexDigitsAre(c / 16);
    HexDigitsAre(c % 16);
    ZeroDigit();
    NothingSpells();
    SpellsMore([], 0, 0, 48);
    SpellsMore([] + [48], 0, 0, 48);
    SpellsMore([] + [48] + [48], 0, c / 16, Hex(c / 16));
    SpellsMore([] + [48] + [48] + [Hex(c / 16)], c / 16, c % 16, Hex(c % 16));
    assert [] + [48] + [48] + [Hex(c / 16)] + [Hex(c % 16)] == [48, 48, Hex(c / 16), Hex(c % 16)];
  }

  lemma LettersAre()
    ensures var l := ShortLetters(); l[0] == QUOTE && l[1] == BACKSLASH && l[3] == 98 && l[4] == 102
    ensures var l := ShortLetters(); l[5] == 110 && l[6] == 114 && l[7] == 116
  {}

  /** An escaped byte is a spelling of that byte. */
  lemma EscapeSpells(c: Byte)
    requires c != 0
    ensures Right(SpellingOf(c)) && ShowChar(SpellingOf(c)) == Escape(c) && BytesOf(SpellingOf(c)) == [c]
  {
    hide Hex, ShortLetters, Spells;
    LettersAre();
    if c < 32 {
      UnitSpells(c);
    }
    assert Text("\\") == [BACKSLASH] && Text("\\u") == [BACKSLASH, 117];
  }

  function SpellingsOf(s: seq<Byte>): seq<Spelling> {
    if s == [] then [] else [SpellingOf(s[0])] + SpellingsOf(s[1..])
  }

  lemma {:induction false} EscapedSpells(s: seq<Byte>)
    requires NulFree(s)
    ensures forall x <- SpellingsOf(s) :: Right(x)
    ensures ShowChars(SpellingsOf(s)) == Escaped(s) && StringOf(SpellingsOf(s)) == s
    ensures ShowString(SpellingsOf(s)) == PrintString(s)
  {
    hide Right, ShowChar, Escape, BytesOf, SpellingOf;
    assert Text("\"") == [QUOTE];
    if s != [] {
      assert NulFree(s[1..]);
      EscapeSpells(s[0]);
      EscapedSpells(s[1..]);
      assert SpellingsOf(s)[1..] == SpellingsOf(s[1..]);
      assert [s[0]] + s[1..] == s;
    }
  }

  /** The text print_value writes, as a text of the grammar. */
  function Layout(v: Json, depth: nat, fmt: bool): Value
    requires Printable(v)
  {
    match v
    case Null => NullText
    case False => FalseText
    case True => TrueText
    case Number(n) => NumberText(n < 0, if n < 0 then -n else n)
    case String(s) => StringText(SpellingsOf(s))
    case Array(c) => ArrayText([], LayoutElems(c, depth + 1, fmt, true))
    case Object(c) =>
      var line: seq<Byte> := if fmt then [NEWLINE] else [];
      var trail := if fmt then Tabs(depth) else [];
      if c.End? then ObjectText(line + trail, NoField)
        else ObjectText(line, LayoutFields(c, depth + 1, fmt, [], line + trail))
  }

  function LayoutElems(c: Nodes, depth: nat, fmt: bool, first: bool): Elems
    requires ChildrenPrintable(c, false)
  {
    match c
    case End => NoElem
    case Node(_, v, next) =>
      Elem(if fmt && !first then [SPACE] else [], Layout(v, depth, fmt), [], LayoutElems(next, depth, fmt, false))
  }

  function LayoutFields(c: Nodes, depth: nat, fmt: bool, lead: seq<Byte>, trail: seq<Byte>): Fields
    requires ChildrenPrintable(c, true)
  {
    match c
    case End => NoField
    case Node(name, v, next) =>
      var line: seq<Byte> := if fmt then [NEWLINE] else [];
      Field(lead + (if fmt then Tabs(depth) else []), SpellingsOf(name.value), [], if fmt then [TAB] else [],
            Layout(v, depth, fmt), if next.End? then trail else [], LayoutFields(next, depth, fmt, line, trail))
  }

  /** Every printed text is a JSON text of its tree, formatted or not. */
  lemma {:induction false} PrintedIsText(v: Json, depth: nat, fmt: bool)
    requires Printable(v)
    ensures var t := Layout(v, depth, fmt); Proper(t) && Show(t) == PrintValue(v, depth, fmt) && Item(t) == v
    decreases v, 0
  {
    hide LayoutElems, LayoutFields, PrintItems, PrintMembers, ShowElems, ShowFields, ProperElems, ProperFields;
    hide ItemsOf, MembersOf, Decimal, Digits, ShowString, StringOf, SpellingsOf, PrintString;
    match v
    case Number(n) => DigitsPrinted(n);
    case String(s) => EscapedSpells(s);
    case Array(c) => PrintedArray(c, depth, fmt);
    case Object(c) => PrintedObject(c, depth, fmt);
    case _ =>
  }

  lemma DigitsPrinted(n: int)
    ensures var d := if n < 0 then -n else n;
            (if n < 0 then Text("-") else []) + Decimal(d) == PrintInt(n) && (n < 0 ==> d > 0)
  {
    hide Decimal, Digits;
    var d := if n < 0 then -n else n;
    DecimalIsDigits(d);
    assert Text("-") == [MINUS];
    assert [] + Digits(d) == Digits(d);
  }

  lemma {:induction false} PrintedArray(c: Nodes, depth: nat, fmt: bool)
    requires ChildrenPrintable(c, false)
    ensures var t := Layout(Array(c), depth, fmt);
            Proper(t) && Show(t) == PrintValue(Array(c), depth, fmt) && Item(t) == Array(c)
    decreases c, 1
  {
    hide LayoutElems, PrintItems, ShowElems, ProperElems, ItemsOf;
    PrintedItems(c, depth + 1, fmt, true);
    assert Text("[") == [LBRACKET] && Text("]") == [RBRACKET];
    var p := PrintItems(c, depth + 1, fmt);
    assert [] + p == p;
    assert [LBRACKET] + ([] + (p + [RBRACKET])) == [LBRACKET] + p + [RBRACKET];
  }

  lemma {:induction false} PrintedItems(c: Nodes, depth: nat, fmt: bool, first: bool)
    requires ChildrenPrintable(c, false)
    ensures var e := LayoutElems(c, depth, fmt, first);
            var space: seq<Byte> := if c.Node? && fmt && !first then [SPACE] else [];
            ProperElems(e) && ShowElems(e) == space + PrintItems(c, depth, fmt) && ItemsOf(e) == c
    decreases c, 0
  {
    hide Show, PrintValue, PrintItems, Layout, Proper, Item, Printable, ShowElems, ProperElems, ItemsOf, White;
    NoItems(depth, fmt);
    if c.Node? {
      PrintedIsText(c.value, depth, fmt);
      PrintedItems(c.next, depth, fmt, false);
      var space: seq<Byte> := if fmt && !first then [SPACE] else [];
      var p, more := PrintValue(c.value, depth, fmt), PrintItems(c.next, depth, fmt);
      ItemsUnfold(c, depth, fmt);
      OneElem(space, Layout(c.value, depth, fmt), LayoutElems(c.next, depth, fmt, false));
      if c.next.End? {
        LastItem(space, p);
      } else {
        NextItem(space, p, [COMMA], if fmt then [SPACE] else [], more);
      }
    }
  }

  lemma ItemsUnfold(c: Nodes, depth: nat, fmt: bool)
    requires c.Node? && ChildrenPrintable(c, false)
    ensures var gap: seq<Byte> := if fmt then [SPACE] else [];
            PrintItems(c, depth, fmt) ==
            PrintValue(c.value, depth, fmt) + (if c.next.Node? then [COMMA] + gap else [])
            + PrintItems(c.next, depth, fmt)
  {
    hide PrintValue, Printable;
    assert [COMMA] + [SPACE] == [COMMA, SPACE] && [COMMA] + [] == [COMMA];
  }

  lemma NoItems(depth: nat, fmt: bool)
    ensures PrintItems(End, depth, fmt) == [] && ShowElems(NoElem) == [] && ProperElems(NoElem)
    ensures ItemsOf(NoElem) == End
  {}

  /** An element with no white space behind it. */
  lemma OneElem(space: seq<Byte>, v: Value, next: Elems)
    requires (space == [] || space == [SPACE]) && Proper(v) && ProperElems(next)
    ensures var e := Elem(space, v, [], next);
            && ProperElems(e) && ItemsOf(e) == Node(None, Item(v), ItemsOf(next))
            && ShowElems(e) == space + (Show(v) + ([] + if next.NoElem? then [] else [COMMA] + ShowElems(next)))
  {
    hide Show, Proper, Item;
    assert Text(",") == [COMMA];
  }

  lemma LastItem<T>(space: seq<T>, p: seq<T>)
    ensures space + (p + ([] + [])) == space + (p + [] + [])
  {}

  lemma NextItem<T>(space: seq<T>, p: seq<T>, comma: seq<T>, gap: seq<T>, more: seq<T>)
    ensures space + (p + ([] + (comma + (gap + more)))) == space + (p + (comma + gap) + more)
  {}

  lemma {:induction false} PrintedObject(c: Nodes, depth: nat, fmt: bool)
    requires ChildrenPrintable(c, true)
    ensures var t := Layout(Object(c), depth, fmt);
            Proper(t) && Show(t) == PrintValue(Object(c), depth, fmt) && Item(t) == Object(c)
    decreases c, 2
  {
    hide LayoutFields, PrintMembers, ShowFields, ProperFields, MembersOf, Tabs, Show, Proper, Item, White;
    var line: seq<Byte> := if fmt then [NEWLINE] else [];
    var trail := if fmt then Tabs(depth) else [];
    TabsAreWhite(depth);
    if c.End? {
      NoneLaidOut(depth + 1, fmt);
      WhiteAfter(line, trail);
      OneObject(line + trail, NoField);
      assert [LBRACE] + ((line + trail) + ([] + [RBRACE])) == [LBRACE] + line + [] + trail + [RBRACE];
    } else {
      PrintedMembers(c, depth + 1, fmt, [], trail);
      var p := PrintMembers(c, depth + 1, fmt);
      OneObject(line, LayoutFields(c, depth + 1, fmt, [], line + trail));
      assert [LBRACE] + (line + (([] + p + trail) + [RBRACE])) == [LBRACE] + line + p + trail + [RBRACE];
    }
  }

  lemma OneObject(gap: seq<Byte>, fields: Fields)
    requires White(gap) && ProperFields(fields)
    ensures var v := ObjectText(gap, fields);
            Proper(v) && Item(v) == Object(MembersOf(fields))
            && Show(v) == [LBRACE] + (gap + (ShowFields(fields) + [RBRACE]))
  {
    hide ShowFields, ProperFields, MembersOf;
    assert Text("{") == [LBRACE] && Text("}") == [RBRACE];
  }

  lemma WhiteAfter(a: seq<Byte>, b: seq<Byte>)
    requires White(a) && White(b)
    ensures White(a + b)
  {}

  lemma NoneLaidOut(depth: nat, fmt: bool)
    ensures PrintMembers(End, depth, fmt) == [] && ShowFields(NoField) == [] && ProperFields(NoField)
    ensures MembersOf(NoField) == End
  {}

  lemma TabsAreWhite(n: nat)
    ensures White(Tabs(n)) && White([NEWLINE] + Tabs(n)) && White([NEWLINE]) && White([TAB]) && White([])
  {}

  /** Members, with what comes in front of the first one and behind the last line. */
  lemma {:induction false} PrintedMembers(c: Nodes, depth: nat, fmt: bool, lead: seq<Byte>, trail: seq<Byte>)
    requires ChildrenPrintable(c, true) && White(lead) && White(trail)
    ensures var line: seq<Byte> := if fmt then [NEWLINE] else [];
            var f := LayoutFields(c, depth, fmt, lead, line + trail);
            && ProperFields(f) && MembersOf(f) == c
            && (c.Node? ==> ShowFields(f) == lead + PrintMembers(c, depth, fmt) + trail)
    decreases c, 1
  {
    hide Show, PrintValue, Layout, Proper, Item, Tabs, PrintString, ShowString, Right, StringOf, SpellingsOf;
    hide PrintMembers, Printable;
    NoneLaidOut(depth, fmt);
    if c.Node? {
      var line: seq<Byte> := if fmt then [NEWLINE] else [];
      var tabs := if fmt then Tabs(depth) else [];
      TabsAreWhite(depth);
      PrintedIsText(c.value, depth, fmt);
      EscapedSpells(c.name.value);
      PrintedMembers(c.next, depth, fmt, line, trail);
      assert Text(",") == [COMMA] && Text(":") == [COLON];
      var name, p, more := PrintString(c.name.value), PrintValue(c.value, depth, fmt), PrintMembers(c.next, depth, fmt);
      var gap: seq<Byte> := if fmt then [TAB] else [];
      MembersUnfold(c, depth, fmt);
      if c.next.End? {
        LastLaidOut(lead, tabs, name, [COLON], gap, p, line, trail);
      } else {
        NextLaidOut(lead, tabs, name, [COLON], gap, p, [COMMA], line, more, trail);
      }
    }
  }

  lemma LastLaidOut<T>(lead: seq<T>, tabs: seq<T>, name: seq<T>, colon: seq<T>, gap: seq<T>, p: seq<T>, line: seq<T>,
                       trail: seq<T>)
    ensures (lead + tabs) + (name + ([] + (colon + (gap + (p + ((line + trail) + []))))))
            == lead + (tabs + name + (colon + gap) + p + [] + line + []) + trail
  {}

  lemma NextLaidOut<T>(lead: seq<T>, tabs: seq<T>, name: seq<T>, colon: seq<T>, gap: seq<T>, p: seq<T>, comma: seq<T>,
                       line: seq<T>, more: seq<T>, trail: seq<T>)
    ensures (lead + tabs) + (name + ([] + (colon + (gap + (p + ([] + (comma + (line + more + trail))))))))
            == lead + (tabs + name + (colon + gap) + p + comma + line + more) + trail
  {}
}
