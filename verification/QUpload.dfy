/** The multipart form of an upload, in one buffer with the file or around a buffer that stays where it is. */
module QUpload {
  import opened Bytes
  import opened HttpTrans
  import opened HttpReq
  import CJson

  const NAME_PREFIX: nat := 38
  const TYPE_PREFIX: nat := 16

  function Disposition(): (r: seq<Byte>)
    ensures |r| == NAME_PREFIX
  {
    Text("Content-Disposition: form-data; name=\"")
  }

  function ContentType(): (r: seq<Byte>)
    ensures |r| == TYPE_PREFIX
  {
    Text("\r\nContent-Type: ")
  }

  function Dashes(): (r: seq<Byte>)
    ensures |r| == 2
  {
    Text("--")
  }

  function LineEnd(): (r: seq<Byte>)
    ensures |r| == 2
  {
    Text("\r\n")
  }

  datatype Field = Field(name: seq<Byte>, value: seq<Byte>, mime: Option<seq<Byte>>)

  /** The header lines of a part, and the empty line after them. */
  function PartHeader(f: Field): (r: seq<Byte>)
    ensures |r| == NAME_PREFIX + |f.name| + 1 + (if f.mime.Some? then TYPE_PREFIX + |f.mime.value| else 0) + 4
  {
    Disposition() + f.name + Text("\"") + (if f.mime.Some? then ContentType() + f.mime.value else []) + Text("\r\n\r\n")
  }

  /** One part as RFC 2046 section 5.1.1 writes it: delimiter, headers, value, line end. */
  function Part(boundary: seq<Byte>, f: Field): seq<Byte> {
    Dashes() + boundary + LineEnd() + PartHeader(f) + f.value + LineEnd()
  }

  function Parts(boundary: seq<Byte>, fields: seq<Field>): seq<Byte> {
    if fields == [] then [] else Part(boundary, fields[0]) + Parts(boundary, fields[1..])
  }

  function Multipart(boundary: seq<Byte>, fields: seq<Field>): seq<Byte> {
    Parts(boundary, fields) + Dashes() + boundary + Dashes() + LineEnd()
  }

  // ---- the code's way: every field ends with the dashes of the next delimiter

  function Before(boundary: seq<Byte>, f: Field): seq<Byte> {
    boundary + LineEnd() + PartHeader(f)
  }

  function FormField(boundary: seq<Byte>, f: Field): seq<Byte> {
    Before(boundary, f) + f.value + Text("\r\n--")
  }

  function FormFields(boundary: seq<Byte>, fields: seq<Field>): seq<Byte> {
    if fields == [] then [] else FormField(boundary, fields[0]) + FormFields(boundary, fields[1..])
  }

  /** The form as it is assembled: leading dashes, the fields, the last boundary and its end. */
  function Form(boundary: seq<Byte>, fields: seq<Field>): seq<Byte> {
    Dashes() + FormFields(boundary, fields) + boundary + Text("--\r\n")
  }

  lemma Literals()
    ensures Text("\r\n--") == LineEnd() + Dashes() && Text("--\r\n") == Dashes() + LineEnd()
  {}

  lemma {:induction false} FieldsAreParts(boundary: seq<Byte>, fields: seq<Field>)
    ensures Dashes() + FormFields(boundary, fields) == Parts(boundary, fields) + Dashes()
  {
    hide Dashes, LineEnd, PartHeader, Text;
    if fields == [] {
      assert Dashes() + [] == [] + Dashes();
    } else {
      var f, rest := fields[0], FormFields(boundary, fields[1..]);
      FieldsAreParts(boundary, fields[1..]);
      Literals();
      Rotate(Dashes(), boundary, LineEnd(), PartHeader(f), f.value, rest, Parts(boundary, fields[1..]));
    }
  }

  lemma Rotate<T>(d: seq<T>, b: seq<T>, e: seq<T>, h: seq<T>, v: seq<T>, rest: seq<T>, parts: seq<T>)
    requires d + rest == parts + d
    ensures d + (b + e + h + v + (e + d) + rest) == d + b + e + h + v + e + parts + d
  {
    assert d + (b + e + h + v + (e + d) + rest) == d + b + e + h + v + e + (d + rest);
    assert d + b + e + h + v + e + parts + d == d + b + e + h + v + e + (parts + d);
  }

  /** The assembled form is the multipart body of its fields. */
  lemma FormIsMultipart(boundary: seq<Byte>, fields: seq<Field>)
    ensures Form(boundary, fields) == Multipart(boundary, fields)
  {
    hide Dashes, LineEnd, Text, FormFields, Parts;
    FieldsAreParts(boundary, fields);
    Literals();
    assert Multipart(boundary, fields) == Parts(boundary, fields) + Dashes() + boundary + (Dashes() + LineEnd());
  }

  lemma {:induction false} FieldsAppend(boundary: seq<Byte>, a: seq<Field>, b: seq<Field>)
    ensures FormFields(boundary, a + b) == FormFields(boundary, a) + FormFields(boundary, b)
  {
    hide FormField;
    if a == [] {
      assert a + b == b;
    } else {
      assert (a + b)[1..] == a[1..] + b;
      FieldsAppend(boundary, a[1..], b);
    }
  }

  lemma OneField(boundary: seq<Byte>, f: Field)
    ensures FormFields(boundary, [f]) == FormField(boundary, f)
  {
    hide FormField;
    assert [f][1..] == [];
  }

  // ---- assembling

  /**
   The buffer of a form, written through a moving pointer that nothing checks: overrun says that a write went past its
   end, where nothing is known of what the buffer, or the memory behind it, holds.
   */
  class FormBuffer {
    const data: array<Byte>
    var p: nat
    var overrun: bool
    ghost var text: seq<Byte>

    ghost predicate Valid()
      reads this, data
    {
      p == |text| && (overrun <==> |text| > data.Length) && (!overrun ==> data[..p] == text)
    }

    constructor (capacity: nat)
      ensures Valid() && fresh(data) && data.Length == capacity && text == []
    {
      data := new Byte[capacity](_ => 0);
      p, overrun, text := 0, false, [];
    }

    /** qn_memconcat */
    method Concat(src: seq<Byte>)
      requires Valid()
      modifies this, data
      ensures Valid() && text == old(text) + src
    {
      if p + |src| <= data.Length {
        ghost var was := data[..];
        Memcpy(data, p, src);
        SplicePrefix(was, p, src);
      } else {
        overrun := true;
      }
      p, text := p + |src|, text + src;
    }

    /** The headers of a field, up to where its value goes. */
    method AddHeader(boundary: seq<Byte>, f: Field) returns (delta: nat)
      requires Valid()
      modifies this, data
      ensures Valid() && text == old(text) + Before(boundary, f)
      ensures delta + |boundary| + |f.name| + (if f.mime.Some? then |f.mime.value| else 0) == |Before(boundary, f)|
    {
      hide Valid, Disposition, ContentType, LineEnd, Text;
      ghost var start, typed := text, if f.mime.Some? then ContentType() + f.mime.value else [];
      Concat(boundary);
      Concat(LineEnd());
      delta := 2;
      Concat(Disposition());
      delta := delta + 38;
      Concat(f.name);
      Concat(Text("\""));
      delta := delta + 1;
      ghost var named := text;
      if f.mime.Some? {
        Concat(ContentType());
        Concat(f.mime.value);
        delta := delta + 16;
        assert named + ContentType() + f.mime.value == named + typed;
      } else {
        assert named + [] == named;
      }
      Concat(Text("\r\n\r\n"));
      delta := delta + 4;
      Gather(start, boundary, LineEnd(), Disposition(), f.name, Text("\""), typed, Text("\r\n\r\n"));
    }

    /** qn_addformfield: the length it adds is the number of bytes it writes. */
    method AddFormField(boundary: seq<Byte>, f: Field, len: nat) returns (formDataLen: nat)
      requires Valid()
      modifies this, data
      ensures Valid() && text == old(text) + FormField(boundary, f)
      ensures formDataLen == len + |FormField(boundary, f)|
    {
      hide Valid, Before, Text;
      ghost var start := text;
      var delta := AddHeader(boundary, f);
      Concat(f.value);
      Concat(Text("\r\n--"));
      delta := delta + 4;
      delta := delta + |boundary| + |f.name| + (if f.mime.Some? then |f.mime.value| else 0) + |f.value|;
      formDataLen := len + delta;
      assert start + Before(boundary, f) + f.value + Text("\r\n--") == start + FormField(boundary, f);
    }

    /** The fields before the file, after the leading dashes. */
    method AddFields(boundary: seq<Byte>, fields: seq<Field>) returns (len: nat)
      requires Valid() && text == []
      modifies this, data
      ensures Valid() && len == |text| && text == Dashes() + FormFields(boundary, fields)
    {
      hide Valid, FormField, FormFields, Text, Dashes, Before;
      Concat(Dashes());
      assert [] + Dashes() == Dashes();
      len := 2;
      var i := 0;
      NoFields(boundary, fields);
      while i < |fields|
        invariant 0 <= i <= |fields| && Valid() && len == |text|
        invariant text == Dashes() + FormFields(boundary, fields[..i])
      {
        TakeField(boundary, fields, i);
        Associate(Dashes(), FormFields(boundary, fields[..i]), FormField(boundary, fields[i]));
        len := AddFormField(boundary, fields[i], len);
        i := i + 1;
      }
      assert fields[..i] == fields;
    }
  }

  lemma Gather<T>(a: seq<T>, b: seq<T>, c: seq<T>, d: seq<T>, e: seq<T>, f: seq<T>, g: seq<T>, h: seq<T>)
    ensures a + b + c + d + e + f + g + h == a + (b + c + (d + e + f + g + h))
  {}

  /** The fields of an upload in order; a meta key is cut to the 31 characters its buffer holds. */
  function MetaName(key: seq<Byte>): seq<Byte> {
    var name := Text("x-qn-meta-") + key;
    if |name| > 31 then name[..31] else name
  }

  function Pairs(kvs: seq<(seq<Byte>, seq<Byte>)>, meta: bool): seq<Field> {
    if kvs == [] then []
    else [Field(if meta then MetaName(kvs[0].0) else kvs[0].0, kvs[0].1, None)] + Pairs(kvs[1..], meta)
  }

  function FieldsOf(token: seq<Byte>, key: Option<seq<Byte>>, metas: seq<(seq<Byte>, seq<Byte>)>,
                    magics: seq<(seq<Byte>, seq<Byte>)>): seq<Field>
  {
    [Field(Text("token"), token, None)] + (if key.Some? then [Field(Text("key"), key.value, None)] else [])
    + Pairs(metas, true) + Pairs(magics, false)
  }

  function FileField(value: seq<Byte>, mime: Option<seq<Byte>>): Field {
    Field(Text("file"), value, mime)
  }

  /**
   The assembling part of linkUpload in a buffer of the given capacity: all fields, the file last; returns the form, if
   it fits, and where a value left out would go.
   */
  method BuildForm(capacity: nat, boundary: seq<Byte>, fields: seq<Field>, file: Field)
    returns (fits: bool, form: seq<Byte>, prev: nat)
    ensures fits <==> |Form(boundary, fields + [file])| <= capacity
    ensures fits ==> form == Form(boundary, fields + [file]) && prev <= |form|
    ensures fits ==> form[..prev] == Dashes() + FormFields(boundary, fields) + Before(boundary, file) + file.value
    ensures fits ==> form[prev..] == Text("\r\n--") + boundary + Text("--\r\n")
  {
    hide FormField, FormFields, Text, Dashes, Before;
    FieldsAppend(boundary, fields, [file]);
    OneField(boundary, file);
    FieldIs(boundary, file);
    ghost var head := Dashes() + FormFields(boundary, fields);
    Regroup(Dashes(), FormFields(boundary, fields), FormField(boundary, file), boundary, Text("--\r\n"));
    var buf := new FormBuffer(capacity);
    var len := buf.AddFields(boundary, fields);
    len := buf.AddFormField(boundary, file, len);
    prev := len - 4;
    buf.Concat(boundary);
    buf.Concat(Text("--\r\n"));
    FileParts(head, boundary, file, Text("--\r\n"));
    fits, form := !buf.overrun, if buf.overrun then [] else buf.data[..buf.p];
  }

  lemma Associate<T>(a: seq<T>, b: seq<T>, c: seq<T>)
    ensures a + b + c == a + (b + c)
  {}

  lemma Regroup<T>(d: seq<T>, fs: seq<T>, f: seq<T>, b: seq<T>, end: seq<T>)
    ensures d + (fs + f) + b + end == d + fs + f + b + end
  {}

  lemma NoFields(boundary: seq<Byte>, fields: seq<Field>)
    ensures FormFields(boundary, fields[..0]) == []
  {}

  lemma TakeField(boundary: seq<Byte>, fields: seq<Field>, i: nat)
    requires i < |fields|
    ensures FormFields(boundary, fields[..i + 1]) == FormFields(boundary, fields[..i]) + FormField(boundary, fields[i])
  {
    hide FormField, FormFields;
    assert fields[..i + 1] == fields[..i] + [fields[i]];
    FieldsAppend(boundary, fields[..i], [fields[i]]);
    OneField(boundary, fields[i]);
  }

  lemma FileParts(head: seq<Byte>, boundary: seq<Byte>, file: Field, end: seq<Byte>)
    ensures var form := head + FormField(boundary, file) + boundary + end;
            var prev := |head| + |FormField(boundary, file)| - 4;
            && 0 <= prev <= |form| && form[..prev] == head + Before(boundary, file) + file.value
            && form[prev..] == Text("\r\n--") + boundary + end
  {
    hide Before, Text;
  }

  /** The three parts of an in-memory upload, sent one after the other, are the form with the file's bytes in place. */
  lemma BufferModeIsFileMode(boundary: seq<Byte>, fields: seq<Field>, mime: Option<seq<Byte>>, file: seq<Byte>,
                             form: seq<Byte>, prev: nat)
    requires prev <= |form|
    requires form[..prev] == Dashes() + FormFields(boundary, fields) + Before(boundary, FileField([], mime)) + []
    requires form[prev..] == Text("\r\n--") + boundary + Text("--\r\n")
    ensures form[..prev] + file + form[prev..] == Multipart(boundary, fields + [FileField(file, mime)])
  {
    hide FormFields, FormField, Dashes, Text, Parts, PartHeader, Multipart;
    var f := FileField(file, mime);
    FormIsMultipart(boundary, fields + [f]);
    FieldsAppend(boundary, fields, [f]);
    OneField(boundary, f);
    SameHeader(boundary, file, mime);
    InPlace(Dashes(), FormFields(boundary, fields), Before(boundary, f), file, Text("\r\n--"), boundary,
            Text("--\r\n"));
    FieldIs(boundary, f);
  }

  lemma SameHeader(boundary: seq<Byte>, file: seq<Byte>, mime: Option<seq<Byte>>)
    ensures Before(boundary, FileField(file, mime)) == Before(boundary, FileField([], mime))
  {}

  lemma FieldIs(boundary: seq<Byte>, f: Field)
    ensures FormField(boundary, f) == Before(boundary, f) + f.value + Text("\r\n--")
  {}

  lemma InPlace<T>(d: seq<T>, fs: seq<T>, h: seq<T>, v: seq<T>, e: seq<T>, b: seq<T>, end: seq<T>)
    ensures d + fs + h + [] + v + (e + b + end) == d + (fs + (h + v + e)) + b + end
  {}

  // ---- what fits

  /** static_form_data */
  const STATIC_FORM: nat := 1636

  /** The room a field takes besides its boundary. */
  function FieldRoom(name: nat, value: nat): nat {
    name + value + 49
  }

  function PairsRoom(boundary: nat, kvs: seq<(seq<Byte>, seq<Byte>)>, meta: bool): nat {
    if kvs == [] then 0
    else
      var name := if meta then Min(31, 10 + |kvs[0].0|) else |kvs[0].0|;
      boundary + FieldRoom(name, |kvs[0].1|) + PairsRoom(boundary, kvs[1..], meta)
  }

  /** The room the form of an upload takes without the file's bytes. */
  function FormRoom(boundary: nat, token: seq<Byte>, key: Option<seq<Byte>>, metas: seq<(seq<Byte>, seq<Byte>)>,
                    magics: seq<(seq<Byte>, seq<Byte>)>, mime: Option<seq<Byte>>): nat
  {
    2 + boundary + FieldRoom(5, |token|) + (if key.Some? then boundary + FieldRoom(3, |key.value|) else 0)
    + PairsRoom(boundary, metas, true) + PairsRoom(boundary, magics, false)
    + boundary + FieldRoom(4, 0) + (if mime.Some? then 16 + |mime.value| else 0) + boundary + 4
  }

  lemma FieldLength(boundary: seq<Byte>, f: Field)
    ensures |FormField(boundary, f)|
            == |boundary| + FieldRoom(|f.name|, |f.value|) + if f.mime.Some? then 16 + |f.mime.value| else 0
  {
    assert |Text("\r\n--")| == 4;
  }

  lemma {:induction false} PairsLength(boundary: seq<Byte>, kvs: seq<(seq<Byte>, seq<Byte>)>, meta: bool)
    ensures |FormFields(boundary, Pairs(kvs, meta))| == PairsRoom(|boundary|, kvs, meta)
  {
    hide FormField;
    if kvs != [] {
      var f := Field(if meta then MetaName(kvs[0].0) else kvs[0].0, kvs[0].1, None);
      assert Pairs(kvs, meta)[0] == f && Pairs(kvs, meta)[1..] == Pairs(kvs[1..], meta);
      FieldLength(boundary, f);
      PairsLength(boundary, kvs[1..], meta);
    }
  }

  lemma KeyLength(boundary: seq<Byte>, key: Option<seq<Byte>>)
    ensures |FormFields(boundary, if key.Some? then [Field(Text("key"), key.value, None)] else [])|
         == if key.Some? then |boundary| + FieldRoom(3, |key.value|) else 0
  {
    hide FormField;
    if key.Some? {
      OneField(boundary, Field(Text("key"), key.value, None));
      FieldLength(boundary, Field(Text("key"), key.value, None));
    }
  }

  /** The length of a form, argument by argument, with the file's bytes in it or left out. */
  lemma FormLength(boundary: seq<Byte>, token: seq<Byte>, key: Option<seq<Byte>>, metas: seq<(seq<Byte>, seq<Byte>)>,
                   magics: seq<(seq<Byte>, seq<Byte>)>, mime: Option<seq<Byte>>, value: seq<Byte>)
    ensures |Form(boundary, FieldsOf(token, key, metas, magics) + [FileField(value, mime)])|
         == FormRoom(|boundary|, token, key, metas, magics, mime) + |value|
  {
    hide FormField, FormFields, PairsRoom, Pairs;
    var t, k := [Field(Text("token"), token, None)], if key.Some? then [Field(Text("key"), key.value, None)] else [];
    var file := FileField(value, mime);
    FieldsAppend(boundary, t + k + Pairs(metas, true) + Pairs(magics, false), [file]);
    FieldsAppend(boundary, t + k + Pairs(metas, true), Pairs(magics, false));
    FieldsAppend(boundary, t + k, Pairs(metas, true));
    FieldsAppend(boundary, t, k);
    OneField(boundary, t[0]);
    OneField(boundary, file);
    FieldLength(boundary, t[0]);
    FieldLength(boundary, file);
    KeyLength(boundary, key);
    PairsLength(boundary, metas, true);
    PairsLength(boundary, magics, false);
  }

  /** A token of 1404 bytes and nothing else is one byte too many for the 40 bytes of the boundary the code makes. */
  lemma LongToken(boundary: seq<Byte>, token: seq<Byte>)
    requires |boundary| == 40 && |token| == 1404
    ensures |Form(boundary, FieldsOf(token, None, [], []) + [FileField([], None)])| == STATIC_FORM + 1
  {
    FormLength(boundary, token, None, [], [], None, []);
  }

  /**
   An in-memory upload over a connection. The form fits its buffer exactly when its arguments are short enough; then
   the request is the multipart form with the file in place, declares its length, and is what is on the wire when no
   write was interrupted. When it does not fit, nothing is said.
   */
  method UploadBuffer(conn: Conn, boundary: seq<Byte>, token: seq<Byte>, key: Option<seq<Byte>>,
                      metas: seq<(seq<Byte>, seq<Byte>)>,
                      magics: seq<(seq<Byte>, seq<Byte>)>, mime: Option<seq<Byte>>, file: seq<Byte>)
    returns (fits: bool, rv: Status, ghost req: Req)
    requires !conn.async && !conn.sock.failed
    modifies conn, conn.sock
    ensures fits <==> FormRoom(|boundary|, token, key, metas, magics, mime) <= STATIC_FORM
    ensures fits ==> Fields(conn) == old(Fields(conn))
    ensures fits ==> Whole(req) == Multipart(boundary, FieldsOf(token, key, metas, magics) + [FileField(file, mime)])
    ensures fits ==> req.contentLength.Some? && CJson.ParseDigits(req.contentLength.value, 0) == (|Whole(req)|, [])
    ensures fits && rv == Done ==>
              (conn.sock.written == old(conn.sock.written) + Whole(req)
               <==> conn.sock.interrupts == old(conn.sock.interrupts))
  {
    hide Multipart, FormFields, Before, FieldsOf, FormRoom, CJson.ParseDigits, CJson.PrintInt;
    var fields := FieldsOf(token, key, metas, magics);
    FormLength(boundary, token, key, metas, magics, mime, []);
    var form, prev;
    fits, form, prev := BuildForm(STATIC_FORM, boundary, fields, FileField([], mime));
    if !fits {
      return false, Err, Req(Post, [], [], [], None);
    }
    BufferModeIsFileMode(boundary, fields, mime, file, form, prev);
    var plain := Req(Post, form[..prev], file, form[prev..], None);
    DeclaredLength(plain);
    var r := Prepare(plain);
    req := r;
    rv := BodyPhase(r, conn);
  }
}
