/** The header block of one form part: how it is written, line by line. */
module PartHeaders {
  import opened Prelude
  import opened PercentEncoding

  predicate IsTokenChar(c: byte) {
    '0' <= c <= '9' || 'a' <= c <= 'z' || c in {'!', '#', '$', '%', '&', '\'', '*', '+', '-', '.', '^', '_', '`', '|', '~'}
  }

  predicate IsToken(s: bytes) {
    s != [] && forall i :: 0 <= i < |s| ==> IsTokenChar(s[i])
  }

  predicate IsFieldText(s: bytes) {
    forall i :: 0 <= i < |s| ==> s[i] == '\t' || (s[i] as int >= 32 && s[i] as int != 127)
  }

  /** Field names and field values as the `http` crate admits them: lower-case tokens, text without controls. */
  type HeaderValue = s: bytes | IsFieldText(s) witness []

  datatype Field = Field(name: bytes, value: bytes)

  type CustomField = f: Field | IsToken(f.name) && IsFieldText(f.value) witness Field("a", [])

  /** What a part says about itself; `headers` lists the custom fields in the order the header map yields them. */
  datatype PartMetadata = PartMetadata(mime: Option<HeaderValue>, fileName: Option<bytes>, headers: seq<CustomField>)

  // ----- escaping of file names -----

  /** `str::replace` of one character by a text. */
  function Replace(s: bytes, from: byte, to: bytes): bytes {
    if s == [] then [] else (if s[0] == from then to else [s[0]]) + Replace(s[1..], from, to)
  }

  /** The four passes, in the order they are made. */
  function LegalFileName(s: bytes): bytes {
    Replace(Replace(Replace(Replace(s, '\\', "\\\\"), '"', "\\\""), CR, "\\\r"), LF, "\\\n")
  }

  predicate IsSpecial(c: byte) {
    c in {'\\', '"', CR, LF}
  }

  /** A single pass that puts a backslash before each special character. */
  function Escape(s: bytes): bytes {
    if s == [] then [] else (if IsSpecial(s[0]) then ['\\', s[0]] else [s[0]]) + Escape(s[1..])
  }

  lemma {:induction false} ReplaceAppend(a: bytes, b: bytes, from: byte, to: bytes)
    ensures Replace(a + b, from, to) == Replace(a, from, to) + Replace(b, from, to)
  {
    if a == [] {
      assert a + b == b;
    } else {
      ReplaceAppend(a[1..], b, from, to);
      TailOfAppend(a, b);
      Regroup(if a[0] == from then to else [a[0]], Replace(a[1..], from, to), Replace(b, from, to));
    }
  }

  lemma LegalFileNameAppend(a: bytes, b: bytes)
    ensures LegalFileName(a + b) == LegalFileName(a) + LegalFileName(b)
  {
    ReplaceAppend(a, b, '\\', "\\\\");
    var a1, b1 := Replace(a, '\\', "\\\\"), Replace(b, '\\', "\\\\");
    ReplaceAppend(a1, b1, '"', "\\\"");
    var a2, b2 := Replace(a1, '"', "\\\""), Replace(b1, '"', "\\\"");
    ReplaceAppend(a2, b2, CR, "\\\r");
    var a3, b3 := Replace(a2, CR, "\\\r"), Replace(b2, CR, "\\\r");
    ReplaceAppend(a3, b3, LF, "\\\n");
  }

  lemma ReplaceOne(c: byte, from: byte, to: bytes)
    ensures Replace([c], from, to) == if c == from then to else [c]
  {
    assert Replace([c][1..], from, to) == [];
  }

  lemma ReplaceTwo(c: byte, d: byte, from: byte, to: bytes)
    requires c != from && d != from
    ensures Replace([c, d], from, to) == [c, d]
  {
    ReplaceOne(c, from, to);
    ReplaceOne(d, from, to);
    ReplaceAppend([c], [d], from, to);
    assert [c] + [d] == [c, d];
  }

  lemma LegalFileNameOne(c: byte)
    ensures LegalFileName([c]) == if IsSpecial(c) then ['\\', c] else [c]
  {
    ReplaceOne(c, '\\', "\\\\");
    if c == '\\' {
      ReplaceTwo('\\', '\\', '"', "\\\"");
      ReplaceTwo('\\', '\\', CR, "\\\r");
      ReplaceTwo('\\', '\\', LF, "\\\n");
    } else {
      ReplaceOne(c, '"', "\\\"");
      if c == '"' {
        ReplaceTwo('\\', '"', CR, "\\\r");
        ReplaceTwo('\\', '"', LF, "\\\n");
      } else {
        ReplaceOne(c, CR, "\\\r");
        if c == CR {
          ReplaceTwo('\\', CR, LF, "\\\n");
        } else {
          ReplaceOne(c, LF, "\\\n");
        }
      }
    }
  }

  /** The four chained passes never touch each other's output: together they are the single-pass escape. */
  lemma {:induction false} FourPassesAreOne(s: bytes)
    ensures LegalFileName(s) == Escape(s)
  {
    if s != [] {
      FourPassesAreOne(s[1..]);
      LegalFileNameAppend([s[0]], s[1..]);
      LegalFileNameOne(s[0]);
      assert [s[0]] + s[1..] == s;
    }
  }

  /** Byte by byte: four characters get a backslash, all others stay. */
  lemma EscapedByte(c: byte)
    ensures LegalFileName([c]) == if c in {'\\', '"', '\r', '\n'} then ['\\', c] else [c]
  {
    LegalFileNameOne(c);
  }

  // ----- the lines of the block -----

  const DISPOSITION: bytes := "Content-Disposition: form-data"

  function Quoted(s: bytes): bytes {
    "\"" + (s + "\"")
  }

  /** The quoted form is used when the encoder borrowed its result, the extended form when it built a new string. */
  function NameParam(e: Encoding, name: bytes): bytes {
    if NothingToEncode(e, name) || |name| == 1
    then "name" + ("=" + Quoted(Encode(e, name)))
    else "name*" + ("=" + ("utf-8''" + Encode(e, name)))
  }

  function FileNameParam(fileName: Option<bytes>): bytes {
    match fileName
    case None => []
    case Some(f) => "; " + ("filename" + ("=" + Quoted(Escape(f))))
  }

  function DispositionStart(e: Encoding, name: bytes): bytes {
    DISPOSITION + ("; " + NameParam(e, name))
  }

  function DispositionLine(e: Encoding, name: bytes, fileName: Option<bytes>): bytes {
    DispositionStart(e, name) + FileNameParam(fileName)
  }

  function FieldLine(h: Field): bytes {
    h.name + ": " + h.value
  }

  function MimeField(mime: Option<HeaderValue>): seq<Field> {
    match mime
    case None => []
    case Some(m) => [Field("Content-Type", m)]
  }

  /** The fields that follow the disposition: the media type if there is one, then the custom fields. */
  function OtherFields(meta: PartMetadata): seq<Field> {
    MimeField(meta.mime) + meta.headers
  }

  function FieldLines(fields: seq<Field>): seq<bytes> {
    if fields == [] then [] else [FieldLine(fields[0])] + FieldLines(fields[1..])
  }

  function HeaderLines(e: Encoding, name: bytes, meta: PartMetadata): seq<bytes> {
    [DispositionLine(e, name, meta.fileName)] + FieldLines(OtherFields(meta))
  }

  function JoinLines(lines: seq<bytes>): bytes {
    if lines == [] then []
    else if |lines| == 1 then lines[0]
    else lines[0] + (CRLF + JoinLines(lines[1..]))
  }

  function HeaderBlock(e: Encoding, name: bytes, meta: PartMetadata): bytes {
    JoinLines(HeaderLines(e, name, meta))
  }

  lemma {:induction false} JoinSnoc(lines: seq<bytes>, l: bytes)
    requires lines != []
    ensures JoinLines(lines + [l]) == JoinLines(lines) + CRLF + l
  {
    if |lines| == 1 {
      assert (lines + [l])[1..] == [l];
    } else {
      JoinSnoc(lines[1..], l);
      assert (lines + [l])[1..] == lines[1..] + [l];
    }
  }

  lemma {:induction false} FieldLinesSnoc(fields: seq<Field>, h: Field)
    ensures FieldLines(fields + [h]) == FieldLines(fields) + [FieldLine(h)]
  {
    if fields == [] {
      assert fields + [h] == [h];
      assert FieldLines([h][1..]) == [];
    } else {
      FieldLinesSnoc(fields[1..], h);
      assert (fields + [h])[1..] == fields[1..] + [h];
    }
  }

  lemma FieldLinesOne(h: Field)
    ensures FieldLines([h]) == [FieldLine(h)]
  {
    assert FieldLines([h][1..]) == [];
  }

  lemma ContentTypeLine(m: bytes)
    ensures "\r\nContent-Type: " + m == CRLF + FieldLine(Field("Content-Type", m))
  {
    assert "\r\nContent-Type: " == CRLF + ("Content-Type" + ": ");
  }

  lemma DispositionPrefix(rest: bytes)
    ensures "Content-Disposition: form-data; " + rest == DISPOSITION + ("; " + rest)
  {
    assert "Content-Disposition: form-data; " == DISPOSITION + "; ";
  }

  lemma NameLiterals(v: bytes)
    ensures "name=\"" + v + "\"" == "name" + ("=" + Quoted(v))
    ensures "name*=utf-8''" + v == "name*" + ("=" + ("utf-8''" + v))
  {
    assert "name=\"" == "name" + ("=" + "\"");
    assert "name*=utf-8''" == "name*" + ("=" + "utf-8''");
  }

  lemma FileNameLiteral(v: bytes)
    ensures "; filename=\"" + v + "\"" == "; " + ("filename" + ("=" + Quoted(v)))
  {
    assert "; filename=\"" == "; " + ("filename" + ("=" + "\""));
  }

  lemma AsciiAppend(a: bytes, b: bytes)
    requires IsAscii(a) && IsAscii(b)
    ensures IsAscii(a + b)
  {
  }

  lemma LiteralsAreAscii()
    ensures IsAscii(DISPOSITION) && IsAscii("; ") && IsAscii("name") && IsAscii("name*") && IsAscii("=")
    ensures IsAscii("\"") && IsAscii("utf-8''")
  {
  }

  lemma NameParamIsAscii(e: Encoding, name: bytes)
    requires e != NoOp
    ensures IsAscii(NameParam(e, name))
  {
    hide IsAscii, Encode, NothingToEncode;
    EncodedIsAscii(e, name);
    LiteralsAreAscii();
    var text := Encode(e, name);
    AsciiAppend(text, "\"");
    AsciiAppend("\"", text + "\"");
    AsciiAppend("=", Quoted(text));
    AsciiAppend("name", "=" + Quoted(text));
    AsciiAppend("utf-8''", text);
    AsciiAppend("=", "utf-8''" + text);
    AsciiAppend("name*", "=" + ("utf-8''" + text));
  }

  lemma StartIsAscii(e: Encoding, name: bytes)
    requires e != NoOp
    ensures IsAscii(DispositionStart(e, name))
  {
    hide IsAscii, NameParam;
    NameParamIsAscii(e, name);
    LiteralsAreAscii();
    AsciiAppend("; ", NameParam(e, name));
    AsciiAppend(DISPOSITION, "; " + NameParam(e, name));
  }

  /** The `name` parameter as it is appended to the buffer. */
  method WriteName(e: Encoding, name: bytes) returns (buf: bytes)
    ensures buf == DispositionStart(e, name)
    ensures e != NoOp ==> IsAscii(buf)
  {
    hide IsAscii, Encode, NothingToEncode;
    if e != NoOp {
      StartIsAscii(e, name);
    }
    BorrowedIff(e, name);
    DispositionPrefix(NameParam(e, name));
    NameLiterals(Encode(e, name));
    match PercentEncode(e, name) {
      case Borrowed(value) => buf := "Content-Disposition: form-data; " + ("name=\"" + value + "\"");
      case Owned(value) => buf := "Content-Disposition: form-data; " + ("name*=utf-8''" + value);
    }
  }

  lemma JoinField(lines: seq<bytes>, fields: seq<Field>, h: Field)
    requires lines != []
    ensures JoinLines(lines + FieldLines(fields + [h])) == JoinLines(lines + FieldLines(fields)) + (CRLF + FieldLine(h))
  {
    FieldLinesSnoc(fields, h);
    JoinSnoc(lines + FieldLines(fields), FieldLine(h));
    assert lines + FieldLines(fields + [h]) == lines + FieldLines(fields) + [FieldLine(h)];
  }

  /** The custom fields, each on a new line after what is already in the buffer. */
  method AppendFields(start: bytes, headers: seq<Field>, ghost lines: seq<bytes>, ghost before: seq<Field>) returns (buf: bytes)
    requires lines != [] && start == JoinLines(lines + FieldLines(before))
    ensures buf == JoinLines(lines + FieldLines(before + headers))
  {
    buf := start;
    assert before + headers[..0] == before;
    for i := 0 to |headers|
      invariant buf == JoinLines(lines + FieldLines(before + headers[..i]))
    {
      var h := headers[i];
      JoinField(lines, before + headers[..i], h);
      assert before + headers[..i + 1] == before + headers[..i] + [h];
      buf := buf + ("\r\n" + (h.name + ": " + h.value));
    }
    assert before + headers[..|headers|] == before + headers;
  }

  /** The `filename` parameter after the `name` parameter. */
  method AppendFileName(start: bytes, fileName: Option<bytes>) returns (buf: bytes)
    ensures buf == start + FileNameParam(fileName)
  {
    buf := start;
    if fileName.Some? {
      var legal := LegalFileName(fileName.value);
      FourPassesAreOne(fileName.value);
      FileNameLiteral(legal);
      buf := buf + ("; filename=\"" + legal + "\"");
    }
  }

  /** The media type on a line of its own. */
  method AppendMime(start: bytes, mime: Option<HeaderValue>) returns (buf: bytes)
    ensures buf == JoinLines([start] + FieldLines(MimeField(mime)))
  {
    buf := start;
    if mime.Some? {
      ContentTypeLine(mime.value);
      FieldLinesOne(Field("Content-Type", mime.value));
      JoinSnoc([start], FieldLine(Field("Content-Type", mime.value)));
      buf := buf + ("\r\nContent-Type: " + mime.value);
    }
  }

  /** Writes the block by appending to one buffer; what it has written is the joined lines. */
  method EncodeHeaders(e: Encoding, name: bytes, field: PartMetadata) returns (buf: bytes)
    ensures buf == HeaderBlock(e, name, field)
  {
    buf := WriteName(e, name);
    buf := AppendFileName(buf, field.fileName);
    ghost var first := DispositionLine(e, name, field.fileName);
    assert buf == first;
    buf := AppendMime(buf, field.mime);
    buf := AppendFields(buf, field.headers, [first], MimeField(field.mime));
  }
}
