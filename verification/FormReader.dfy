/**
 A reader of multipart forms, written from RFC 2046 section 5.1.1 and RFC 7578,
 and what it finds in the form of an upload: every argument under its name.
 */
module FormReader {
  import opened Bytes
  import opened HttpTrans
  import opened QUpload

  /** A part as a reader knows it. */
  datatype Entry = Entry(name: seq<Byte>, value: seq<Byte>, mime: Option<seq<Byte>>)

  const EOL: seq<Byte> := [13, 10]
  const BLANK: seq<Byte> := [13, 10, 13, 10]

  function Delimiter(boundary: seq<Byte>): seq<Byte> {
    EOL + [45, 45] + boundary
  }

  predicate StartsWith(s: seq<Byte>, t: seq<Byte>) {
    |s| >= |t| && s[..|t|] == t
  }

  /** The name in quotes, and a content type on a line of its own. */
  function ReadHeader(h: seq<Byte>): Option<(seq<Byte>, Option<seq<Byte>>)> {
    var intro, kind := Text("Content-Disposition: form-data; name=\""), EOL + Text("Content-Type: ");
    if !StartsWith(h, intro) then None
    else
      var s := h[|intro|..];
      match FindPatt(s, [34], 0)
      case None => None
      case Some(i) =>
        var more := s[i + 1..];
        if more == [] then Some((s[..i], None))
        else if StartsWith(more, kind) then Some((s[..i], Some(more[|kind|..])))
        else None
  }

  /** The parts from behind a delimiter on. */
  function ReadParts(boundary: seq<Byte>, s: seq<Byte>): Option<seq<Entry>>
    decreases |s|
  {
    if StartsWith(s, [45, 45]) then Some([])
    else if !StartsWith(s, EOL) then None
    else
      match FindPatt(s[2..], BLANK, 0)
      case None => None
      case Some(i) =>
        var body := s[2..][i + 4..];
        match (ReadHeader(s[2..][..i]), FindPatt(body, Delimiter(boundary), 0))
        case (Some((name, mime)), Some(j)) =>
          (match ReadParts(boundary, body[j + |Delimiter(boundary)|..])
           case None => None
           case Some(more) => Some([Entry(name, body[..j], mime)] + more))
        case _ => None
  }

  function ReadForm(boundary: seq<Byte>, s: seq<Byte>): Option<seq<Entry>> {
    if StartsWith(s, [45, 45] + boundary) then ReadParts(boundary, s[2 + |boundary|..]) else None
  }

  // ---- reading what the form says

  /** What a form cannot hold: names with a quote or a line end, values with the delimiter in them. */
  ghost predicate Tame(boundary: seq<Byte>, f: Field) {
    && 34 !in f.name && 13 !in f.name && (f.mime.Some? ==> 13 !in f.mime.value)
    && forall j: nat :: j < |f.value| ==> !MatchAt(f.value + Delimiter(boundary), Delimiter(boundary), j)
  }

  function EntryOf(f: Field): Entry {
    Entry(f.name, f.value, f.mime)
  }

  function EntriesOf(fields: seq<Field>): seq<Entry> {
    if fields == [] then [] else [EntryOf(fields[0])] + EntriesOf(fields[1..])
  }

  /** The header lines of a part, without the empty line behind them. */
  function HeaderText(f: Field): seq<Byte> {
    Disposition() + f.name + [34] + if f.mime.Some? then ContentType() + f.mime.value else []
  }

  lemma HeaderIs(f: Field)
    ensures PartHeader(f) == HeaderText(f) + BLANK
  {
    hide Disposition, ContentType;
    assert Text("\"") == [34] && Text("\r\n\r\n") == BLANK;
  }

  lemma FirstAt(s: seq<Byte>, patt: seq<Byte>, k: nat)
    requires MatchAt(s, patt, k) && forall j: nat :: j < k ==> !MatchAt(s, patt, j)
    ensures FindPatt(s, patt, 0) == Some(k)
  {
    hide MatchAt;
  }

  lemma QuoteFirst(name: seq<Byte>, more: seq<Byte>)
    requires 34 !in name
    ensures FindPatt(name + ([34] + more), [34], 0) == Some(|name|)
  {
    var s := name + ([34] + more);
    assert s[|name|..|name| + 1] == [34];
    forall j: nat | j < |name|
      ensures !MatchAt(s, [34], j)
    {
      assert s[j..j + 1][0] == name[j];
    }
    FirstAt(s, [34], |name|);
  }

  lemma HeaderReads(f: Field)
    requires 34 !in f.name
    ensures ReadHeader(HeaderText(f)) == Some((f.name, f.mime))
  {
    hide FindPatt, Text;
    var intro, kind := Text("Content-Disposition: form-data; name=\""), EOL + Text("Content-Type: ");
    Prefixes();
    var more := if f.mime.Some? then ContentType() + f.mime.value else [];
    assert HeaderText(f)[..|intro|] == intro && HeaderText(f)[|intro|..] == f.name + ([34] + more);
    QuoteFirst(f.name, more);
    var s := f.name + ([34] + more);
    assert s[..|f.name|] == f.name && s[|f.name| + 1..] == more;
    if f.mime.Some? {
      assert more[..|kind|] == kind && more[|kind|..] == f.mime.value;
    }
  }

  lemma Prefixes()
    ensures Disposition() == Text("Content-Disposition: form-data; name=\"")
    ensures ContentType() == EOL + Text("Content-Type: ")
    ensures 13 !in Disposition() && |ContentType()| == 16 && 13 !in ContentType()[1..]
  {
    var c := ContentType();
    assert c == EOL + Text("Content-Type: ");
    assert forall i :: 1 <= i < 16 ==> c[i] != 13;
  }

  /** The empty line comes first behind the header lines. */
  lemma BlankFirst(f: Field, more: seq<Byte>)
    requires 13 !in f.name && (f.mime.Some? ==> 13 !in f.mime.value)
    ensures FindPatt(HeaderText(f) + BLANK + more, BLANK, 0) == Some(|HeaderText(f)|)
  {
    hide FindPatt, Disposition, ContentType;
    Prefixes();
    var h := HeaderText(f);
    var s, k := h + BLANK + more, |Disposition()| + |f.name| + 1;
    assert s[|h|..|h| + 4] == BLANK;
    forall j: nat | j < |h|
      ensures !MatchAt(s, BLANK, j)
    {
      OneReturn(f, j);
      assert s[j] == h[j];
      if j + 4 <= |s| && h[j] == 13 {
        assert f.mime.Some? && j == k;
        assert s[j + 2] == h[j + 2] == ContentType()[2];
        assert s[j..j + 4][2] == s[j + 2];
      }
      assert j + 4 <= |s| ==> s[j..j + 4][0] == s[j];
    }
    FirstAt(s, BLANK, |h|);
  }

  /** The only carriage return of the header lines is the one in front of the content type. */
  lemma OneReturn(f: Field, j: nat)
    requires 13 !in f.name && (f.mime.Some? ==> 13 !in f.mime.value) && j < |HeaderText(f)|
    ensures HeaderText(f)[j] == 13 ==>
              && f.mime.Some? && j == |Disposition()| + |f.name| + 1 && j + 16 <= |HeaderText(f)|
              && HeaderText(f)[j + 2] == ContentType()[2] && ContentType()[2] != 13
  {
    hide Disposition, ContentType;
    Prefixes();
    var k := |Disposition()| + |f.name| + 1;
    if j < |Disposition()| {
      assert HeaderText(f)[j] == Disposition()[j];
    } else if j < k - 1 {
      assert HeaderText(f)[j] == f.name[j - |Disposition()|];
    } else if j == k - 1 {
      assert HeaderText(f)[j] == 34;
    } else if j < k + 16 {
      assert HeaderText(f)[j] == ContentType()[j - k];
      assert ContentType()[2] == ContentType()[1..][1];
      if j > k {
        assert ContentType()[j - k] == ContentType()[1..][j - k - 1];
      }
    } else {
      assert HeaderText(f)[j] == f.mime.value[j - k - 16];
    }
  }

  /** The value ends at the delimiter. */
  lemma DelimiterFirst(boundary: seq<Byte>, f: Field, more: seq<Byte>)
    requires Tame(boundary, f)
    ensures FindPatt(f.value + (Delimiter(boundary) + more), Delimiter(boundary), 0) == Some(|f.value|)
  {
    hide FindPatt;
    var d := Delimiter(boundary);
    var s := f.value + d;
    assert s[|f.value|..|f.value| + |d|] == d;
    FirstAt(s, d, |f.value|);
    FindPattExtends(s, more, d);
    assert s + more == f.value + (d + more);
  }

  /** One part, and the delimiter behind it. */
  lemma PartReads(boundary: seq<Byte>, f: Field, more: seq<Byte>)
    requires Tame(boundary, f)
    ensures var s := EOL + (PartHeader(f) + (f.value + (Delimiter(boundary) + more)));
            ReadParts(boundary, s) == match ReadParts(boundary, more)
                                      case None => None
                                      case Some(es) => Some([EntryOf(f)] + es)
  {
    hide FindPatt, ReadHeader, ReadParts, HeaderText, Delimiter, Tame, PartHeader;
    var d := Delimiter(boundary);
    var body := f.value + (d + more);
    var s, h := EOL + (PartHeader(f) + body), HeaderText(f);
    HeaderIs(f);
    TameHeader(boundary, f);
    BlankFirst(f, body);
    HeaderReads(f);
    DelimiterFirst(boundary, f, more);
    assert s[..2] == EOL && s[2..] == h + BLANK + body;
    assert s[2..][..|h|] == h && s[2..][|h| + 4..] == body;
    assert body[..|f.value|] == f.value && body[|f.value| + |d|..] == more;
    OnePart(boundary, s, |h|, body, |f.value|, f.name, f.mime);
  }

  lemma TameHeader(boundary: seq<Byte>, f: Field)
    requires Tame(boundary, f)
    ensures 34 !in f.name && 13 !in f.name && (f.mime.Some? ==> 13 !in f.mime.value)
  {}

  /** What the reader makes of a part once its places are known. */
  lemma OnePart(boundary: seq<Byte>, s: seq<Byte>, i: nat, body: seq<Byte>, j: nat, name: seq<Byte>,
                mime: Option<seq<Byte>>)
    requires |s| >= 2 && s[..2] == EOL && FindPatt(s[2..], BLANK, 0) == Some(i) && i + 4 <= |s[2..]|
    requires body == s[2..][i + 4..] && ReadHeader(s[2..][..i]) == Some((name, mime))
    requires FindPatt(body, Delimiter(boundary), 0) == Some(j) && j + |Delimiter(boundary)| <= |body|
    ensures ReadParts(boundary, s) == match ReadParts(boundary, body[j + |Delimiter(boundary)|..])
                                      case None => None
                                      case Some(es) => Some([Entry(name, body[..j], mime)] + es)
  {
    hide FindPatt, MatchAt, ReadHeader, Delimiter;
    assert s[..2][0] == 13;
    assert !StartsWith(s, [45, 45]) && StartsWith(s, EOL);
    var rest := body[j + |Delimiter(boundary)|..];
    assert ReadParts(boundary, s) == match ReadParts(boundary, rest)
                                     case None => None
                                     case Some(es) => Some([Entry(name, body[..j], mime)] + es);
  }

  lemma {:induction false} PartsRead(boundary: seq<Byte>, fields: seq<Field>)
    requires forall f <- fields :: Tame(boundary, f)
    ensures ReadParts(boundary, Behind(boundary, fields)) == Some(EntriesOf(fields))
    decreases |fields|
  {
    hide ReadParts, Tame, Delimiter;
    if fields == [] {
      LastReads(boundary);
    } else {
      PartReads(boundary, fields[0], Behind(boundary, fields[1..]));
      PartsRead(boundary, fields[1..]);
    }
  }

  lemma LastReads(boundary: seq<Byte>)
    ensures ReadParts(boundary, [45, 45] + EOL) == Some([])
  {
    assert ([45, 45] + EOL)[..2] == [45, 45];
  }

  /** A form from behind its first boundary on. */
  function Behind(boundary: seq<Byte>, fields: seq<Field>): seq<Byte> {
    if fields == [] then [45, 45] + EOL
    else EOL + (PartHeader(fields[0]) + (fields[0].value + (Delimiter(boundary) + Behind(boundary, fields[1..]))))
  }

  lemma {:induction false} FormIsBehind(boundary: seq<Byte>, fields: seq<Field>)
    ensures Multipart(boundary, fields) == [45, 45] + boundary + Behind(boundary, fields)
    decreases |fields|
  {
    hide PartHeader;
    assert Dashes() == [45, 45] && LineEnd() == EOL;
    if fields != [] {
      FormIsBehind(boundary, fields[1..]);
      var f, rest := fields[0], Behind(boundary, fields[1..]);
      Around([45, 45], boundary, EOL, PartHeader(f), f.value, Parts(boundary, fields[1..]), rest);
    }
  }

  lemma Around<T>(d: seq<T>, b: seq<T>, e: seq<T>, h: seq<T>, v: seq<T>, parts: seq<T>, rest: seq<T>)
    requires parts + d + b + d + e == d + b + rest
    ensures (d + b + e + h + v + e) + parts + d + b + d + e == d + b + (e + (h + (v + ((e + d + b) + rest))))
  {
    assert (d + b + e + h + v + e) + parts + d + b + d + e == (d + b + e + h + v + e) + (parts + d + b + d + e);
  }

  /** A form of tame fields is read back field by field. */
  lemma FormReads(boundary: seq<Byte>, fields: seq<Field>)
    requires forall f <- fields :: Tame(boundary, f)
    ensures ReadForm(boundary, Multipart(boundary, fields)) == Some(EntriesOf(fields))
  {
    hide ReadParts, Tame, Multipart, Behind;
    FormIsBehind(boundary, fields);
    PartsRead(boundary, fields);
    var s := Multipart(boundary, fields);
    assert s[..2 + |boundary|] == [45, 45] + boundary && s[2 + |boundary|..] == Behind(boundary, fields);
  }

  // ---- the arguments of an upload

  lemma {:induction false} EntriesAppend(a: seq<Field>, b: seq<Field>)
    ensures EntriesOf(a + b) == EntriesOf(a) + EntriesOf(b)
  {
    if a == [] {
      assert a + b == b;
    } else {
      assert (a + b)[1..] == a[1..] + b;
      EntriesAppend(a[1..], b);
    }
  }

  /** Each pair under its name; that of a meta pair is prefixed and cut to 31 characters. */
  ghost predicate PairsUnder(es: seq<Entry>, kvs: seq<(seq<Byte>, seq<Byte>)>, meta: bool) {
    && |es| == |kvs|
    && forall i :: 0 <= i < |kvs| ==>
         && es[i].value == kvs[i].1 && es[i].mime == None
         && if meta then es[i].name <= Text("x-qn-meta-") + kvs[i].0 && |es[i].name| == Min(31, 10 + |kvs[i].0|)
            else es[i].name == kvs[i].0
  }

  lemma {:induction false} PairsRead(kvs: seq<(seq<Byte>, seq<Byte>)>, meta: bool)
    ensures PairsUnder(EntriesOf(Pairs(kvs, meta)), kvs, meta)
  {
    if kvs != [] {
      PairsRead(kvs[1..], meta);
      var name := MetaName(kvs[0].0);
      assert name <= Text("x-qn-meta-") + kvs[0].0 && |name| == Min(31, 10 + |kvs[0].0|);
      var f := Field(if meta then name else kvs[0].0, kvs[0].1, None);
      assert Pairs(kvs, meta) == [f] + Pairs(kvs[1..], meta);
      assert Pairs(kvs, meta)[1..] == Pairs(kvs[1..], meta);
      var es, more := EntriesOf(Pairs(kvs, meta)), EntriesOf(Pairs(kvs[1..], meta));
      assert es == [EntryOf(f)] + more;
      forall i | 0 <= i < |kvs|
        ensures es[i].value == kvs[i].1 && es[i].mime == None
        ensures if meta then es[i].name <= Text("x-qn-meta-") + kvs[i].0 && |es[i].name| == Min(31, 10 + |kvs[i].0|)
                else es[i].name == kvs[i].0
      {
        if i > 0 {
          assert es[i] == more[i - 1] && kvs[i] == kvs[1..][i - 1];
        }
      }
    }
  }

  /**
   The reader finds in the form of an upload the token first, the key if there is one, then each meta and each magic
   pair, and the file with its type last, each under its name, as long as no argument breaks the form.
   */
  lemma ArgumentsRead(boundary: seq<Byte>, token: seq<Byte>, key: Option<seq<Byte>>, metas: seq<(seq<Byte>, seq<Byte>)>,
                      magics: seq<(seq<Byte>, seq<Byte>)>, mime: Option<seq<Byte>>, file: seq<Byte>)
    requires forall f <- FieldsOf(token, key, metas, magics) + [FileField(file, mime)] :: Tame(boundary, f)
    ensures var form := Multipart(boundary, FieldsOf(token, key, metas, magics) + [FileField(file, mime)]);
            var es := ReadForm(boundary, form);
            var k := if key.Some? then 2 else 1;
            && es.Some? && |es.value| == k + |metas| + |magics| + 1
            && es.value[0] == Entry(Text("token"), token, None)
            && (key.Some? ==> es.value[1] == Entry(Text("key"), key.value, None))
            && PairsUnder(es.value[k..k + |metas|], metas, true)
            && PairsUnder(es.value[k + |metas|..k + |metas| + |magics|], magics, false)
            && es.value[k + |metas| + |magics|] == Entry(Text("file"), file, mime)
  {
    hide Multipart, ReadForm, Tame, PairsUnder, Pairs;
    var t, ks := Field(Text("token"), token, None), if key.Some? then [Field(Text("key"), key.value, None)] else [];
    var ms, gs, f := Pairs(metas, true), Pairs(magics, false), FileField(file, mime);
    FormReads(boundary, FieldsOf(token, key, metas, magics) + [f]);
    EntriesAppend([t] + ks + ms + gs, [f]);
    EntriesAppend([t] + ks + ms, gs);
    EntriesAppend([t] + ks, ms);
    EntriesAppend([t], ks);
    OneEntry(t);
    OneEntry(f);
    if key.Some? {
      OneEntry(ks[0]);
    }
    PairsRead(metas, true);
    PairsRead(magics, false);
    PairsSize(EntriesOf(ms), metas, true);
    PairsSize(EntriesOf(gs), magics, false);
    var es := EntriesOf([t]) + EntriesOf(ks) + EntriesOf(ms) + EntriesOf(gs) + EntriesOf([f]);
    var k := if key.Some? then 2 else 1;
    assert |EntriesOf(ks)| == k - 1;
    assert es[k..k + |metas|] == EntriesOf(ms) && es[k + |metas|..k + |metas| + |magics|] == EntriesOf(gs);
  }

  lemma PairsSize(es: seq<Entry>, kvs: seq<(seq<Byte>, seq<Byte>)>, meta: bool)
    requires PairsUnder(es, kvs, meta)
    ensures |es| == |kvs|
  {}

  lemma OneEntry(f: Field)
    ensures EntriesOf([f]) == [EntryOf(f)] && EntriesOf([]) == []
  {
    assert [f][1..] == [];
  }
}
