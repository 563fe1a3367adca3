/**
 The buffers behind the printer and the parser: every length is computed before
 the text is written, and the text fits it.
 */
module CJsonText {
  import opened Bytes
  import opened CJson

  /** strcpy at p, terminator included; returns the position of the terminator. */
  method Strcpy(out: array<Byte>, p: nat, s: seq<Byte>) returns (q: nat)
    requires p + |s| < out.Length
    modifies out
    ensures q == p + |s| && out[..q] == old(out[..p]) + s
  {
    ghost var was := out[..];
    Memcpy(out, p, s);
    q := p + |s|;
    SplicePrefix(was, p, s);
    ghost var mid := out[..q];
    out[q] := 0;
    assert out[..q] == mid;
  }

  // ---- print_string_ptr

  lemma EscapedStep(s: seq<Byte>, i: nat)
    requires i < |s|
    ensures Escaped(s[i..]) == Escape(s[i]) + Escaped(s[i + 1..])
  {
    assert s[i..][1..] == s[i + 1..];
  }

  predicate Special(c: Byte) {
    c in {QUOTE, BACKSLASH, 8, 12, 10, 13, 9}
  }

  /** First the length of the text, then the text in a buffer of that length plus three. */
  method PrintStringPtr(str: seq<Byte>) returns (text: seq<Byte>)
    requires NulFree(str)
    ensures text == PrintString(str)
  {
    var len := 0;
    var i := 0;
    while i < |str|
      invariant 0 <= i <= |str|
      invariant len + |Escaped(str[i..])| == |Escaped(str)|
    {
      EscapedStep(str, i);
      len := len + 1;
      if Special(str[i]) {
        len := len + 1;
      } else if str[i] < 32 {
        len := len + 5;
      }
      i := i + 1;
    }
    assert str[i..] == [] && len == |Escaped(str)|;
    var out := new Byte[len + 3];
    out[0] := QUOTE;
    var p := 1;
    i := 0;
    while i < |str|
      invariant 0 <= i <= |str| && 1 <= p
      invariant p + |Escaped(str[i..])| == 1 + len
      invariant out[..p] + Escaped(str[i..]) == [QUOTE] + Escaped(str)
    {
      EscapedStep(str, i);
      p := WriteEscape(out, p, str[i], [QUOTE] + Escaped(str), Escaped(str[i + 1..]));
      i := i + 1;
    }
    out[p], out[p + 1] := QUOTE, 0;
    text := out[..p + 1];
    assert Escaped(str[i..]) == [];
  }

  /** The switch over one character; the hexadecimal form also writes sprintf's terminator. */
  method WriteEscape(out: array<Byte>, p: nat, c: Byte, ghost whole: seq<Byte>, ghost rest: seq<Byte>) returns (q: nat)
    requires c != 0 && p + |Escape(c)| + 1 < out.Length
    requires out[..p] + (Escape(c) + rest) == whole
    modifies out
    ensures q == p + |Escape(c)| && out[..q] + rest == whole
  {
    ghost var start := out[..p];
    if c > 31 && c != QUOTE && c != BACKSLASH {
      q := Strcpy(out, p, [c]);
    } else {
      q := Strcpy(out, p, [BACKSLASH]);
      q := WriteLetters(out, q, c);
      assert start + [BACKSLASH] + Escape(c)[1..] == start + Escape(c);
    }
    assert out[..q] == start + Escape(c);
    assert start + Escape(c) + rest == start + (Escape(c) + rest);
  }

  method WriteLetters(out: array<Byte>, p: nat, c: Byte) returns (q: nat)
    requires c != 0 && (c <= 31 || c == QUOTE || c == BACKSLASH) && p + |Escape(c)| < out.Length
    modifies out
    ensures q == p + |Escape(c)| - 1 && out[..q] == old(out[..p]) + Escape(c)[1..]
  {
    if Special(c) {
      var letter := if c == 8 then 98 else if c == 12 then 102 else if c == 10 then 110
                    else if c == 13 then 114 else if c == 9 then 116 else c;
      q := Strcpy(out, p, [letter]);
    } else {
      q := Strcpy(out, p, [117, 48, 48, Hex(c / 16), Hex(c % 16)]);
    }
  }

  // ---- parse_string

  /** What the skipping loop counts: escapes count for one. */
  function RoughLength(t: seq<Byte>): nat
    decreases |t|
  {
    if t == [] || t[0] == QUOTE then 0
    else if t[0] == BACKSLASH then 1 + (if |t| < 2 then 0 else RoughLength(t[2..]))
    else 1 + RoughLength(t[1..])
  }

  lemma Plain(t: seq<Byte>, n: nat)
    requires n <= |t| && forall i :: 0 <= i < n ==> t[i] != QUOTE && t[i] != BACKSLASH
    ensures RoughLength(t) == n + RoughLength(t[n..])
  {
    if n > 0 {
      Plain(t[1..], n - 1);
      assert t[1..][n - 1..] == t[n..];
    }
  }

  lemma HexFits(h: seq<Byte>)
    requires ParseUnicode(h).Some?
    ensures |h| >= 4 && RoughLength(h) == 4 + RoughLength(h[4..]) && |ParseUnicode(h).value| <= 3
  {
    hide RoughLength;
    assert forall i :: 0 <= i < 4 ==> HexValue(h[i]).Some?;
    Plain(h, 4);
  }

  /** A decoded character never needs more room than was counted for it. */
  lemma CharFits(t: seq<Byte>)
    requires t != [] && t[0] != QUOTE && ParseChar(t).Some?
    ensures var (bytes, n) := ParseChar(t).value; |bytes| + RoughLength(t[n..]) <= RoughLength(t)
  {
    hide ParseUnicode;
    if t[0] == BACKSLASH && t[1] == 117 {
      HexFits(t[2..]);
      assert t[2..][4..] == t[6..];
    }
  }

  lemma RoughStep(t: seq<Byte>, p: nat)
    requires p < |t| && t[p] != QUOTE
    ensures t[p] == BACKSLASH ==> RoughLength(t[p..]) == 1 + RoughLength(if p + 2 <= |t| then t[p + 2..] else [])
    ensures t[p] != BACKSLASH ==> RoughLength(t[p..]) == 1 + RoughLength(t[p + 1..])
  {
    assert t[p..][1..] == t[p + 1..];
    if p + 2 <= |t| {
      assert t[p..][2..] == t[p + 2..];
    }
  }

  /** The first pass: skip to the closing quote, counting. */
  method CountChars(t: seq<Byte>) returns (len: nat)
    requires t != []
    ensures len == RoughLength(t[1..])
  {
    len := 0;
    var p := 1;
    while p < |t| && t[p] != QUOTE
      invariant 1 <= p <= |t|
      invariant len + RoughLength(t[p..]) == RoughLength(t[1..])
      decreases |t| - p
    {
      RoughStep(t, p);
      len := len + 1;
      if t[p] == BACKSLASH {
        assert t[|t|..] == [];
        p := if p + 2 <= |t| then p + 2 else |t|;
      } else {
        p := p + 1;
      }
    }
  }

  /** The bytes decoded so far in front of what the rest of the text decodes to. */
  function Prepend(done: seq<Byte>, r: Option<(seq<Byte>, seq<Byte>)>): Option<(seq<Byte>, seq<Byte>)> {
    match r
    case None => None
    case Some((more, rest)) => Some((done + more, rest))
  }

  lemma CharsStep(done: seq<Byte>, t: seq<Byte>, p: nat)
    requires p < |t| && t[p] != QUOTE
    ensures match ParseChar(t[p..])
            case None => ParseChars(t[p..]).None?
            case Some((bytes, n)) =>
              && p + n <= |t|
              && Prepend(done, ParseChars(t[p..])) == Prepend(done + bytes, ParseChars(t[p + n..]))
              && |bytes| + RoughLength(t[p + n..]) <= RoughLength(t[p..])
  {
    hide ParseChar, RoughLength;
    if ParseChar(t[p..]).Some? {
      var (bytes, n) := ParseChar(t[p..]).value;
      CharFits(t[p..]);
      assert t[p..][n..] == t[p + n..];
      var more := ParseChars(t[p + n..]);
      assert more.Some? ==> done + bytes + more.value.0 == done + (bytes + more.value.0);
    }
  }

  lemma CharsEnd(done: seq<Byte>, t: seq<Byte>, p: nat)
    requires p <= |t| && (p == |t| || t[p] == QUOTE)
    ensures Prepend(done, ParseChars(t[p..])) == Some((done, if p < |t| then t[p + 1..] else []))
  {
    assert done + [] == done;
    assert p < |t| ==> t[p..][1..] == t[p + 1..];
  }

  /** The second pass: decode into a buffer of the counted length and a terminator. */
  method CopyChars(t: seq<Byte>, len: nat) returns (r: Option<(seq<Byte>, seq<Byte>)>)
    requires t != [] && len == RoughLength(t[1..])
    ensures r == ParseChars(t[1..])
  {
    hide ParseChars, ParseChar, RoughLength, Prepend;
    var out := new Byte[len + 1];
    var p, q := 1, 0;
    PrependNothing(ParseChars(t[1..]));
    assert out[..0] == [];
    while p < |t| && t[p] != QUOTE
      invariant 1 <= p <= |t| && 0 <= q && q + RoughLength(t[p..]) <= len
      invariant ParseChars(t[1..]) == Prepend(out[..q], ParseChars(t[p..]))
      decreases |t| - p
    {
      ghost var was := out[..];
      CharsStep(out[..q], t, p);
      var step := ParseChar(t[p..]);
      if step.None? {
        PrependNone(out[..q]);
        return None;
      }
      var (bytes, n) := step.value;
      Memcpy(out, q, bytes);
      SplicePrefix(was, q, bytes);
      p, q := p + n, q + |bytes|;
    }
    CharsEnd(out[..q], t, p);
    ghost var decoded := out[..q];
    out[q] := 0;
    assert out[..q] == decoded;
    r := Some((out[..q], if p < |t| then t[p + 1..] else []));
  }

  lemma PrependNothing(r: Option<(seq<Byte>, seq<Byte>)>)
    ensures Prepend([], r) == r
  {
    assert r.Some? ==> [] + r.value.0 == r.value.0;
  }

  lemma PrependNone(done: seq<Byte>)
    ensures Prepend(done, None) == None
  {}

  method ParseStringText(t: seq<Byte>) returns (r: Option<(seq<Byte>, seq<Byte>)>)
    ensures r == ParseString(t)
  {
    if t == [] || t[0] != QUOTE {
      return None;
    }
    var len := CountChars(t);
    r := CopyChars(t, len);
  }

  // ---- print_array and print_object

  function Size(v: Json): nat {
    match v
    case Array(c) => 1 + NodesSize(c)
    case Object(c) => 1 + NodesSize(c)
    case _ => 0
  }

  function NodesSize(c: Nodes): nat {
    match c
    case End => 0
    case Node(_, v, next) => 1 + Size(v) + NodesSize(next)
  }

  /** The printed children of an array or the printed values of an object, in order. */
  function Entries(c: Nodes, named: bool, depth: nat, fmt: bool): seq<seq<Byte>>
    requires ChildrenPrintable(c, named)
  {
    match c
    case End => []
    case Node(_, v, next) => [PrintValue(v, depth, fmt)] + Entries(next, named, depth, fmt)
  }

  function Names(c: Nodes): seq<seq<Byte>>
    requires ChildrenPrintable(c, true)
  {
    match c
    case End => []
    case Node(name, _, next) => [PrintString(name.value)] + Names(next)
  }

  function Separator(last: bool, fmt: bool): seq<Byte> {
    if last then [] else if fmt then [COMMA, SPACE] else [COMMA]
  }

  function JoinItems(entries: seq<seq<Byte>>, fmt: bool): seq<Byte> {
    if entries == [] then []
    else entries[0] + Separator(|entries| == 1, fmt) + JoinItems(entries[1..], fmt)
  }

  function MemberText(name: seq<Byte>, entry: seq<Byte>, last: bool, depth: nat, fmt: bool): seq<Byte> {
    (if fmt then Tabs(depth) else []) + name + (if fmt then [COLON, TAB] else [COLON]) + entry
    + (if last then [] else [COMMA]) + (if fmt then [NEWLINE] else [])
  }

  function JoinMembers(names: seq<seq<Byte>>, entries: seq<seq<Byte>>, depth: nat, fmt: bool): seq<Byte>
    requires |names| == |entries|
  {
    if names == [] then []
    else MemberText(names[0], entries[0], |names| == 1, depth, fmt) + JoinMembers(names[1..], entries[1..], depth, fmt)
  }

  lemma {:induction false} JoinItemsIsPrint(c: Nodes, depth: nat, fmt: bool)
    requires ChildrenPrintable(c, false)
    ensures JoinItems(Entries(c, false, depth, fmt), fmt) == PrintItems(c, depth, fmt)
    ensures c.Node? <==> Entries(c, false, depth, fmt) != []
  {
    hide PrintValue;
    if c.Node? {
      JoinItemsIsPrint(c.next, depth, fmt);
      var e := Entries(c, false, depth, fmt);
      assert e[1..] == Entries(c.next, false, depth, fmt);
    }
  }

  lemma {:induction false} JoinMembersIsPrint(c: Nodes, depth: nat, fmt: bool)
    requires ChildrenPrintable(c, true)
    ensures |Names(c)| == |Entries(c, true, depth, fmt)|
    ensures JoinMembers(Names(c), Entries(c, true, depth, fmt), depth, fmt) == PrintMembers(c, depth, fmt)
    ensures c.Node? <==> Names(c) != []
  {
    hide PrintValue, PrintString, Tabs;
    if c.Node? {
      JoinMembersIsPrint(c.next, depth, fmt);
      var e, n := Entries(c, true, depth, fmt), Names(c);
      assert e[1..] == Entries(c.next, true, depth, fmt) && n[1..] == Names(c.next);
    }
  }

  /** The length print_array asks malloc for. */
  function ItemsLength(entries: seq<seq<Byte>>, fmt: bool): nat {
    if entries == [] then 0 else |entries[0]| + 2 + (if fmt then 1 else 0) + ItemsLength(entries[1..], fmt)
  }

  function MembersLength(names: seq<seq<Byte>>, entries: seq<seq<Byte>>, depth: nat, fmt: bool): nat
    requires |names| == |entries|
  {
    if names == [] then 0
    else
      |entries[0]| + |names[0]| + 2 + (if fmt then 2 + depth else 0)
      + MembersLength(names[1..], entries[1..], depth, fmt)
  }

  lemma {:induction false} ItemsFit(entries: seq<seq<Byte>>, fmt: bool)
    ensures |JoinItems(entries, fmt)| <= ItemsLength(entries, fmt)
  {
    if entries != [] {
      ItemsFit(entries[1..], fmt);
    }
  }

  lemma {:induction false} MembersFit(names: seq<seq<Byte>>, entries: seq<seq<Byte>>, depth: nat, fmt: bool)
    requires |names| == |entries|
    ensures |JoinMembers(names, entries, depth, fmt)| <= MembersLength(names, entries, depth, fmt)
  {
    if names != [] {
      MembersFit(names[1..], entries[1..], depth, fmt);
    }
  }

  lemma JoinItemsStep(entries: seq<seq<Byte>>, i: nat, fmt: bool)
    requires i < |entries|
    ensures JoinItems(entries[i..], fmt)
            == entries[i] + (Separator(i == |entries| - 1, fmt) + JoinItems(entries[i + 1..], fmt))
  {
    hide Separator;
    assert entries[i..][1..] == entries[i + 1..];
  }

  lemma Regroup<T>(a: seq<T>, b: seq<T>, c: seq<T>, d: seq<T>)
    ensures a + b + c + d == a + (b + (c + d))
  {}

  /** The composing loop of print_array, in a buffer of five bytes more than the counted entries. */
  method ComposeArray(entries: seq<seq<Byte>>, fmt: bool, len: nat) returns (text: seq<Byte>)
    requires len == 5 + ItemsLength(entries, fmt)
    ensures text == [LBRACKET] + JoinItems(entries, fmt) + [RBRACKET]
  {
    hide ItemsLength, JoinItems, Separator;
    var out := new Byte[len];
    var p := Strcpy(out, 0, [LBRACKET]);
    assert out[..p] == [LBRACKET];
    var i := 0;
    ItemsFit(entries, fmt);
    ghost var whole := [LBRACKET] + JoinItems(entries, fmt);
    assert entries[0..] == entries;
    while i < |entries|
      invariant 0 <= i <= |entries| && 0 <= p <= |whole| < len - 1
      invariant out[..p] + JoinItems(entries[i..], fmt) == whole
    {
      ghost var before, rest := out[..p], JoinItems(entries[i + 1..], fmt);
      var sep := Separator(i == |entries| - 1, fmt);
      JoinItemsStep(entries, i, fmt);
      Regroup(before, entries[i], sep, rest);
      assert p + |entries[i]| + |sep| <= |whole|;
      p := Strcpy(out, p, entries[i]);
      p := Strcpy(out, p, sep);
      i := i + 1;
    }
    NoMoreItems(entries[i..], fmt);
    assert out[..p] + [] == out[..p];
    p := Strcpy(out, p, [RBRACKET]);
    text := out[..p];
  }

  lemma NoMoreItems(entries: seq<seq<Byte>>, fmt: bool)
    ensures entries == [] ==> JoinItems(entries, fmt) == []
  {}

  /** for (j = 0; j < n; j++) *ptr++ = tab */
  method PutTabs(out: array<Byte>, p: nat, n: nat) returns (q: nat)
    requires p + n <= out.Length
    modifies out
    ensures q == p + n && out[..q] == old(out[..p]) + Tabs(n)
  {
    q := p;
    while q < p + n
      invariant p <= q <= p + n
      invariant out[..q] == old(out[..p]) + Tabs(q - p)
    {
      ghost var before := out[..q];
      out[q] := TAB;
      q := q + 1;
      assert out[..q] == before + [TAB];
      assert Tabs(q - p) == Tabs(q - 1 - p) + [TAB];
    }
  }

  method PutMember(out: array<Byte>, p: nat, name: seq<Byte>, entry: seq<Byte>, last: bool, depth: nat, fmt: bool)
    returns (q: nat)
    requires p + |MemberText(name, entry, last, depth, fmt)| < out.Length
    modifies out
    ensures q == p + |MemberText(name, entry, last, depth, fmt)|
    ensures out[..q] == old(out[..p]) + MemberText(name, entry, last, depth, fmt)
  {
    ghost var start, tabs := out[..p], if fmt then Tabs(depth) else [];
    q := p;
    if fmt {
      q := PutTabs(out, q, depth);
    }
    assert out[..q] == start + tabs;
    q := Strcpy(out, q, name);
    q := Strcpy(out, q, if fmt then [COLON, TAB] else [COLON]);
    q := Strcpy(out, q, entry);
    q := Strcpy(out, q, if last then [] else [COMMA]);
    q := Strcpy(out, q, if fmt then [NEWLINE] else []);
    Gather(start, tabs, name, if fmt then [COLON, TAB] else [COLON], entry, if last then [] else [COMMA],
           if fmt then [NEWLINE] else []);
  }

  lemma Gather<T>(a: seq<T>, b: seq<T>, c: seq<T>, d: seq<T>, e: seq<T>, f: seq<T>, g: seq<T>)
    ensures a + b + c + d + e + f + g == a + (b + c + d + e + f + g)
  {}

  /** The composing part of print_object; depth is already that of the members. */
  method ComposeObject(names: seq<seq<Byte>>, entries: seq<seq<Byte>>, depth: nat, fmt: bool, len: nat)
    returns (text: seq<Byte>)
    requires |names| == |entries| && depth >= 1
    requires len == 7 + (if fmt then depth else 0) + MembersLength(names, entries, depth, fmt)
    ensures text == [LBRACE] + (if fmt then [NEWLINE] else []) + JoinMembers(names, entries, depth, fmt)
                    + (if fmt then Tabs(depth - 1) else []) + [RBRACE]
  {
    hide MemberText, Tabs, MembersLength;
    var out := new Byte[len];
    ghost var head: seq<Byte> := [LBRACE] + if fmt then [NEWLINE] else [];
    var p := Strcpy(out, 0, if fmt then [LBRACE, NEWLINE] else [LBRACE]);
    assert out[..p] == head;
    MembersFit(names, entries, depth, fmt);
    ghost var whole := head + JoinMembers(names, entries, depth, fmt);
    assert names[0..] == names && entries[0..] == entries;
    var i := 0;
    while i < |names|
      invariant 0 <= i <= |names| && 0 <= p <= |whole| < len
      invariant out[..p] + JoinMembers(names[i..], entries[i..], depth, fmt) == whole
    {
      ghost var before, rest := out[..p], JoinMembers(names[i + 1..], entries[i + 1..], depth, fmt);
      ghost var text := MemberText(names[i], entries[i], i == |names| - 1, depth, fmt);
      assert names[i..][1..] == names[i + 1..] && entries[i..][1..] == entries[i + 1..];
      assert JoinMembers(names[i..], entries[i..], depth, fmt) == text + rest;
      assert |whole| == p + |text| + |rest|;
      p := PutMember(out, p, names[i], entries[i], i == |names| - 1, depth, fmt);
      assert before + text + rest == before + (text + rest);
      i := i + 1;
    }
    assert names[i..] == [] && out[..p] + [] == out[..p];
    if fmt {
      p := PutTabs(out, p, depth - 1);
    } else {
      assert whole + [] == whole;
    }
    p := Strcpy(out, p, [RBRACE]);
    text := out[..p];
  }

  // ---- print_value, print_array and print_object

  lemma {:induction false} ItemsLengthSnoc(entries: seq<seq<Byte>>, e: seq<Byte>, fmt: bool)
    ensures ItemsLength(entries + [e], fmt) == ItemsLength(entries, fmt) + |e| + 2 + (if fmt then 1 else 0)
  {
    if entries == [] {
      assert [e][1..] == [] && entries + [e] == [e];
    } else {
      assert (entries + [e])[1..] == entries[1..] + [e];
      ItemsLengthSnoc(entries[1..], e, fmt);
    }
  }

  lemma {:induction false} MembersLengthSnoc(names: seq<seq<Byte>>, entries: seq<seq<Byte>>, n: seq<Byte>, e: seq<Byte>,
                                             depth: nat, fmt: bool)
    requires |names| == |entries|
    ensures MembersLength(names + [n], entries + [e], depth, fmt)
            == MembersLength(names, entries, depth, fmt) + |e| + |n| + 2 + (if fmt then 2 + depth else 0)
  {
    if names == [] {
      assert [n][1..] == [] && names + [n] == [n];
      assert [e][1..] == [] && entries + [e] == [e];
    } else {
      assert (names + [n])[1..] == names[1..] + [n] && (entries + [e])[1..] == entries[1..] + [e];
      MembersLengthSnoc(names[1..], entries[1..], n, e, depth, fmt);
    }
  }

  /** The text of a tree: every piece is printed first, its length counted, then composed. */
  method PrintValueText(v: Json, depth: nat, fmt: bool) returns (text: seq<Byte>)
    requires Printable(v)
    ensures text == PrintValue(v, depth, fmt)
    decreases Size(v), 1
  {
    match v
    case Null => text := [110, 117, 108, 108];
    case False => text := [102, 97, 108, 115, 101];
    case True => text := [116, 114, 117, 101];
    case Number(n) => text := PrintInt(n);
    case String(s) => text := PrintStringPtr(s);
    case Array(c) => text := PrintArrayText(c, depth, fmt);
    case Object(c) => text := PrintObjectText(c, depth, fmt);
  }

  method PrintArrayText(c: Nodes, depth: nat, fmt: bool) returns (text: seq<Byte>)
    requires ChildrenPrintable(c, false)
    ensures text == [LBRACKET] + PrintItems(c, depth + 1, fmt) + [RBRACKET]
    decreases 1 + NodesSize(c), 0
  {
    hide PrintValue, PrintItems, JoinItems, ItemsLength;
    var entries: seq<seq<Byte>>, len, child := [], 5, c;
    NothingCollected(fmt, depth);
    while child.Node?
      invariant ChildrenPrintable(child, false) && NodesSize(child) <= NodesSize(c)
      invariant entries + Entries(child, false, depth + 1, fmt) == Entries(c, false, depth + 1, fmt)
      invariant len == 5 + ItemsLength(entries, fmt)
      decreases NodesSize(child)
    {
      var ret := PrintValueText(child.value, depth + 1, fmt);
      ItemsLengthSnoc(entries, ret, fmt);
      Shift(entries, ret, Entries(child.next, false, depth + 1, fmt));
      entries, len := entries + [ret], len + |ret| + 2 + (if fmt then 1 else 0);
      child := child.next;
    }
    assert entries + [] == entries;
    JoinItemsIsPrint(c, depth + 1, fmt);
    text := ComposeArray(entries, fmt, len);
  }

  lemma NothingCollected(fmt: bool, depth: nat)
    ensures ItemsLength([], fmt) == 0 && MembersLength([], [], depth, fmt) == 0
  {}

  lemma Shift<T>(done: seq<T>, x: T, more: seq<T>)
    ensures done + [x] + more == done + ([x] + more)
  {}

  method PrintObjectText(c: Nodes, depth: nat, fmt: bool) returns (text: seq<Byte>)
    requires ChildrenPrintable(c, true)
    ensures text == [LBRACE] + (if fmt then [NEWLINE] else []) + PrintMembers(c, depth + 1, fmt)
                    + (if fmt then Tabs(depth) else []) + [RBRACE]
    decreases 1 + NodesSize(c), 0
  {
    hide PrintValue, PrintString, PrintMembers, JoinMembers, MembersLength, Tabs;
    var d := depth + 1;
    var names: seq<seq<Byte>>, entries: seq<seq<Byte>>, len, child := [], [], 7 + (if fmt then d else 0), c;
    NothingCollected(fmt, d);
    while child.Node?
      invariant ChildrenPrintable(child, true) && NodesSize(child) <= NodesSize(c) && |names| == |entries|
      invariant names + Names(child) == Names(c)
      invariant entries + Entries(child, true, d, fmt) == Entries(c, true, d, fmt)
      invariant len == 7 + (if fmt then d else 0) + MembersLength(names, entries, d, fmt)
      decreases NodesSize(child)
    {
      var str := PrintStringPtr(child.name.value);
      var ret := PrintValueText(child.value, d, fmt);
      MembersLengthSnoc(names, entries, str, ret, d, fmt);
      Shift(entries, ret, Entries(child.next, true, d, fmt));
      Shift(names, str, Names(child.next));
      names, entries, len := names + [str], entries + [ret], len + |ret| + |str| + 2 + (if fmt then 2 + d else 0);
      child := child.next;
    }
    assert entries + [] == entries && names + [] == names;
    JoinMembersIsPrint(c, d, fmt);
    text := ComposeObject(names, entries, d, fmt, len);
  }

  // ---- parse_value, parse_array and parse_object

  /** The children linked so far, followed by a rest of the list. */
  function Link(done: seq<(Option<seq<Byte>>, Json)>, rest: Nodes): Nodes {
    if done == [] then rest else Node(done[0].0, done[0].1, Link(done[1..], rest))
  }

  lemma {:induction false} LinkSnoc(done: seq<(Option<seq<Byte>>, Json)>, name: Option<seq<Byte>>, v: Json, rest: Nodes)
    ensures Link(done + [(name, v)], rest) == Link(done, Node(name, v, rest))
  {
    var one := [(name, v)];
    if done == [] {
      assert one[1..] == [] && done + one == one;
    } else {
      assert (done + one)[1..] == done[1..] + one;
      LinkSnoc(done[1..], name, v, rest);
    }
  }

  /** The children linked so far in front of what the rest of the text parses to. */
  function Linked(done: seq<(Option<seq<Byte>>, Json)>, r: Option<(Nodes, seq<Byte>)>): Option<(Nodes, seq<Byte>)> {
    match r
    case None => None
    case Some((c, rest)) => Some((Link(done, c), rest))
  }

  /** The parse of what may follow one child: a comma and more children, or the closing bracket. */
  function AfterChild(t: seq<Byte>, close: Byte): Option<(Nodes, seq<Byte>)> {
    if t != [] && t[0] == COMMA then (if close == RBRACKET then ParseItems(t[1..]) else ParseMembers(t[1..]))
    else if t != [] && t[0] == close then Some((End, t[1..]))
    else None
  }

  lemma ItemStep(done: seq<(Option<seq<Byte>>, Json)>, t: seq<Byte>)
    ensures match ParseValue(Skip(t))
            case None => ParseItems(t) == None
            case Some((v, rest)) =>
              Linked(done, ParseItems(t)) == Linked(done + [(None, v)], AfterChild(Skip(rest), RBRACKET))
  {
    hide ParseValue, Skip, Link;
    var r := ParseValue(Skip(t));
    if r.Some? {
      var after := AfterChild(Skip(r.value.1), RBRACKET);
      if after.Some? {
        LinkSnoc(done, None, r.value.0, after.value.0);
      }
    }
  }

  method ParseValueText(t: seq<Byte>) returns (r: Option<(Json, seq<Byte>)>)
    ensures r == ParseValue(t)
    decreases |t|, 1
  {
    hide ParseItems, ParseMembers, ParseString, ParseNumber, Skip;
    if StartsWith(t, [110, 117, 108, 108]) {
      return Some((Null, t[4..]));
    }
    if StartsWith(t, [102, 97, 108, 115, 101]) {
      return Some((False, t[5..]));
    }
    if StartsWith(t, [116, 114, 117, 101]) {
      return Some((True, t[4..]));
    }
    if t == [] {
      return None;
    }
    if t[0] == QUOTE {
      var s := ParseStringText(t);
      return if s.None? then None else Some((String(s.value.0), s.value.1));
    }
    if t[0] == MINUS || IsDigit(t[0]) {
      var n := ParseNumber(t);
      return if n.None? then None else Some((Number(n.value.0), n.value.1));
    }
    if t[0] == LBRACKET {
      r := ParseArrayText(t);
    } else if t[0] == LBRACE {
      r := ParseObjectText(t);
    } else {
      r := None;
    }
  }

  method ParseArrayText(t: seq<Byte>) returns (r: Option<(Json, seq<Byte>)>)
    requires t != [] && t[0] == LBRACKET
    ensures r == ParseValue(t)
    decreases |t|, 0
  {
    hide ParseItems, ParseMembers, Skip, Linked, AfterChild, ParseValue;
    Dispatch(t);
    var value := Skip(t[1..]);
    if value != [] && value[0] == RBRACKET {
      return Some((Array(End), value[1..]));
    }
    ghost var whole := ParseItems(value);
    var done: seq<(Option<seq<Byte>>, Json)> := [];
    LinkedNothing(whole);
    ItemStep(done, value);
    var first := ParseValueText(Skip(value));
    if first.None? {
      return None;
    }
    done, value := done + [(None, first.value.0)], Skip(first.value.1);
    while value != [] && value[0] == COMMA
      invariant |value| < |t|
      invariant whole == Linked(done, AfterChild(value, RBRACKET))
      decreases |value|
    {
      CommaStep(value, RBRACKET);
      ItemStep(done, value[1..]);
      var more := ParseValueText(Skip(value[1..]));
      if more.None? {
        LinkedNone(done);
        return None;
      }
      done, value := done + [(None, more.value.0)], Skip(more.value.1);
    }
    CloseStep(done, value, RBRACKET);
    r := if value != [] && value[0] == RBRACKET then Some((Array(Link(done, End)), value[1..])) else None;
  }

  lemma LinkedNothing(r: Option<(Nodes, seq<Byte>)>)
    ensures Linked([], r) == r
  {}

  lemma LinkedNone(done: seq<(Option<seq<Byte>>, Json)>)
    ensures Linked(done, None) == None
  {}

  lemma CommaStep(t: seq<Byte>, close: Byte)
    requires t != [] && t[0] == COMMA
    ensures AfterChild(t, close) == if close == RBRACKET then ParseItems(t[1..]) else ParseMembers(t[1..])
  {}

  lemma CloseStep(done: seq<(Option<seq<Byte>>, Json)>, t: seq<Byte>, close: Byte)
    requires t == [] || t[0] != COMMA
    ensures Linked(done, AfterChild(t, close))
         == if t != [] && t[0] == close then Some((Link(done, End), t[1..])) else None
  {}

  /** One "name": value of an object, as both the first member and each later one are parsed. */
  method ParseMemberText(t: seq<Byte>, ghost done: seq<(Option<seq<Byte>>, Json)>)
    returns (r: Option<(seq<Byte>, Json, seq<Byte>)>)
    ensures r.None? ==> ParseMembers(t) == None
    ensures r.Some? ==>
              && |r.value.2| < |t|
              && Linked(done, ParseMembers(t))
                   == Linked(done + [(Some(r.value.0), r.value.1)], AfterChild(r.value.2, RBRACE))
    decreases |t|, 2
  {
    hide ParseString, ParseValue, Skip, Link;
    var name := ParseStringText(Skip(t));
    if name.None? {
      return None;
    }
    var value := Skip(name.value.1);
    if value == [] || value[0] != COLON {
      return None;
    }
    var v := ParseValueText(Skip(value[1..]));
    if v.None? {
      return None;
    }
    r := Some((name.value.0, v.value.0, Skip(v.value.1)));
    ghost var after := AfterChild(Skip(v.value.1), RBRACE);
    if after.Some? {
      LinkSnoc(done, Some(name.value.0), v.value.0, after.value.0);
    }
  }

  method ParseObjectText(t: seq<Byte>) returns (r: Option<(Json, seq<Byte>)>)
    requires t != [] && t[0] == LBRACE
    ensures r == ParseValue(t)
    decreases |t|, 0
  {
    hide ParseItems, ParseMembers, Skip, Linked, AfterChild, ParseValue;
    Dispatch(t);
    var value := Skip(t[1..]);
    if value != [] && value[0] == RBRACE {
      return Some((Object(End), value[1..]));
    }
    ghost var whole := ParseMembers(value);
    var done: seq<(Option<seq<Byte>>, Json)> := [];
    LinkedNothing(whole);
    var first := ParseMemberText(value, done);
    if first.None? {
      return None;
    }
    done, value := done + [(Some(first.value.0), first.value.1)], first.value.2;
    while value != [] && value[0] == COMMA
      invariant |value| < |t|
      invariant whole == Linked(done, AfterChild(value, RBRACE))
      decreases |value|
    {
      CommaStep(value, RBRACE);
      var more := ParseMemberText(value[1..], done);
      if more.None? {
        LinkedNone(done);
        return None;
      }
      done, value := done + [(Some(more.value.0), more.value.1)], more.value.2;
    }
    CloseStep(done, value, RBRACE);
    r := if value != [] && value[0] == RBRACE then Some((Object(Link(done, End)), value[1..])) else None;
  }
}
