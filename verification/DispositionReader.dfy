/**
  Readers of the `Content-Disposition` line, and exactly when they get the name and the file name back.

  Section 4.2 of RFC 7578 leaves open how the `name` of a field is quoted, so two readers are defined.
  `QuotedPair` follows the grammar of parameters: a backslash in a quoted string quotes the next
  character and an unquoted value ends at `;`. `Verbatim` reads what this encoder means: the quoted name
  runs to the next quote, and an unquoted value ends at `; `.
*/
module DispositionReader {
  import opened Prelude
  import opened PercentEncoding
  import opened PartHeaders

  datatype Reader = QuotedPair | Verbatim

  datatype Param = Param(key: bytes, value: bytes)

  datatype Disposition = Disposition(name: bytes, fileName: Option<bytes>)

  /** The content of a quoted string up to its first unescaped quote, unescaped, and what follows. */
  function ReadQuoted(s: bytes): (r: Option<(bytes, bytes)>)
    ensures r.Some? ==> |r.value.1| < |s|
  {
    if s == [] then None
    else if s[0] == '"' then Some(([], s[1..]))
    else if s[0] == '\\' then
      if |s| < 2 then None
      else
        var (content, rest) :- ReadQuoted(s[2..]);
        Some(([s[1]] + content, rest))
    else
      var (content, rest) :- ReadQuoted(s[1..]);
      Some(([s[0]] + content, rest))
  }

  function ReadVerbatim(s: bytes): (r: Option<(bytes, bytes)>)
    ensures r.Some? ==> |r.value.1| < |s|
  {
    match Find("\"", s)
    case None => None
    case Some(i) => Some((s[..i], s[i + 1..]))
  }

  /** An unquoted value, up to its terminator or the end of the line. */
  function ReadBare(terminator: bytes, s: bytes): (r: (bytes, bytes))
    ensures |r.1| <= |s|
  {
    match Find(terminator, s)
    case None => (s, [])
    case Some(i) => (s[..i], s[i..])
  }

  function Terminator(m: Reader): bytes {
    if m == Verbatim then "; " else ";"
  }

  function ReadValue(m: Reader, key: bytes, s: bytes): (r: Option<(bytes, bytes)>)
    ensures r.Some? ==> |r.value.1| <= |s|
  {
    if s != [] && s[0] == '"' then
      if m == Verbatim && key == "name" then ReadVerbatim(s[1..]) else ReadQuoted(s[1..])
    else
      Some(ReadBare(Terminator(m), s))
  }

  function ReadParams(m: Reader, s: bytes): Option<seq<Param>>
    decreases |s|
  {
    if s == [] then Some([])
    else if !("; " <= s) then None
    else
      var e :- Find("=", s[2..]);
      var key := s[2..][..e];
      var (value, rest) :- ReadValue(m, key, s[2..][e + 1..]);
      var tail :- ReadParams(m, rest);
      Some([Param(key, value)] + tail)
  }

  /** The name is the first `name` or `name*` parameter; both forms are percent-decoded. */
  function NameOf(params: seq<Param>): Option<bytes> {
    if params == [] then None
    else if params[0].key == "name" then Some(PercentDecode(params[0].value))
    else if params[0].key == "name*" then
      if "utf-8''" <= params[0].value then Some(PercentDecode(params[0].value[7..])) else None
    else NameOf(params[1..])
  }

  function FileNameOf(params: seq<Param>): Option<bytes> {
    if params == [] then None
    else if params[0].key == "filename" then Some(params[0].value)
    else FileNameOf(params[1..])
  }

  function ReadDisposition(m: Reader, line: bytes): Option<Disposition> {
    if !(DISPOSITION <= line) then None
    else
      var params :- ReadParams(m, line[|DISPOSITION|..]);
      var name :- NameOf(params);
      Some(Disposition(name, FileNameOf(params)))
  }

  /** What a caller can check beforehand: which names the reader will get back. */
  predicate Recoverable(m: Reader, e: Encoding, name: bytes) {
    m == Verbatim
    || (if NothingToEncode(e, name) then '\\' !in name
        else |name| == 1 || ';' !in name || MustEncode(e, ';'))
  }

  // ----- quoted strings -----

  /** The closing quote is the first unescaped one, and unescaping undoes the escape. */
  lemma {:induction false} QuotedRoundTrip(s: bytes, rest: bytes)
    ensures ReadQuoted(Escape(s) + ("\"" + rest)) == Some((s, rest))
  {
    var t := "\"" + rest;
    if s == [] {
      assert Escape(s) + t == t;
      assert t[1..] == rest;
    } else {
      QuotedRoundTrip(s[1..], rest);
      var head := if IsSpecial(s[0]) then ['\\', s[0]] else [s[0]];
      var u := Escape(s[1..]) + t;
      Regroup(head, Escape(s[1..]), t);
      assert (head + u)[|head|..] == u;
      assert [s[0]] + s[1..] == s;
    }
  }

  lemma {:induction false} PlainRoundTrip(s: bytes, rest: bytes)
    requires '"' !in s && '\\' !in s
    ensures ReadQuoted(s + ("\"" + rest)) == Some((s, rest))
  {
    var t := "\"" + rest;
    if s == [] {
      assert s + t == t;
      assert t[1..] == rest;
    } else {
      PlainRoundTrip(s[1..], rest);
      assert (s + t)[1..] == s[1..] + t;
      assert [s[0]] + s[1..] == s;
    }
  }

  /** A backslash written unescaped is always lost: the text read is shorter, or has run over the closing quote. */
  lemma {:induction false} BackslashMisread(s: bytes, rest: bytes)
    requires '"' !in s && '\\' in s
    ensures var r := ReadQuoted(s + ("\"" + rest)); r.Some? ==> '"' in r.value.0 || |r.value.0| < |s|
    decreases |s|
  {
    var t := "\"" + rest;
    var r := ReadQuoted(s + t);
    assert s == [s[0]] + s[1..];
    if s[0] != '\\' {
      assert (s + t)[1..] == s[1..] + t;
      BackslashMisread(s[1..], rest);
    } else if |s| >= 2 {
      assert (s + t)[2..] == s[2..] + t;
      if '\\' in s[2..] {
        BackslashMisread(s[2..], rest);
      } else {
        PlainRoundTrip(s[2..], rest);
      }
    } else {
      assert (s + t)[1] == '"';
    }
  }

  lemma VerbatimRoundTrip(s: bytes, rest: bytes)
    requires '"' !in s
    ensures ReadVerbatim(s + ("\"" + rest)) == Some((s, rest))
  {
    NotInNoOccurrence('"', s);
    FirstOccurrence("\"", s, rest);
    var t := s + ("\"" + rest);
    assert t[..|s|] == s && t[|s| + 1..] == rest;
  }

  lemma NotInNoOccurrence(c: char, s: bytes)
    requires c !in s
    ensures !Occurs([c], s)
  {
    assert forall i :: At([c], s, i) ==> s[i..i + 1][0] == s[i];
  }

  // ----- one parameter -----

  /** Reading one parameter whose key has no `=`. */
  lemma ReadOneParam(m: Reader, key: bytes, v: bytes)
    requires '=' !in key
    ensures var s := "; " + (key + ("=" + v));
            ReadParams(m, s) ==
            match ReadValue(m, key, v)
            case None => None
            case Some(vr) =>
              match ReadParams(m, vr.1)
              case None => None
              case Some(tail) => Some([Param(key, vr.0)] + tail)
  {
    var t := key + ("=" + v);
    var s := "; " + t;
    assert s[..2] == "; " && s[2..] == t;
    NotInNoOccurrence('=', key);
    FirstOccurrence("=", key, v);
    assert t[..|key|] == key && t[|key| + 1..] == v;
  }

  lemma QuotedStart(s: bytes, rest: bytes)
    ensures Quoted(s) + rest != [] && (Quoted(s) + rest)[0] == '"'
    ensures (Quoted(s) + rest)[1..] == s + ("\"" + rest)
  {
    assert Quoted(s) + rest == "\"" + (s + ("\"" + rest));
  }

  lemma ReadFileNameParam(m: Reader, fileName: Option<bytes>)
    ensures ReadParams(m, FileNameParam(fileName)) ==
            Some(match fileName case None => [] case Some(f) => [Param("filename", f)])
  {
    if fileName.Some? {
      var v := Quoted(Escape(fileName.value));
      ReadOneParam(m, "filename", v);
      QuotedStart(Escape(fileName.value), []);
      assert v + [] == v;
      QuotedRoundTrip(fileName.value, []);
      assert ReadParams(m, []) == Some([]);
      assert ReadValue(m, "filename", v) == Some((fileName.value, []));
      assert [Param("filename", fileName.value)] + [] == [Param("filename", fileName.value)];
    }
  }

  // ----- the whole line -----

  /** What the reader makes of the parameters of a written line. */
  function Readout(m: Reader, s: bytes): Option<Disposition> {
    var params :- ReadParams(m, s);
    var name :- NameOf(params);
    Some(Disposition(name, FileNameOf(params)))
  }

  lemma DropPrefix(a: bytes, b: bytes)
    ensures a <= a + b && (a + b)[|a|..] == b
  {
  }

  lemma ReadoutOfLine(m: Reader, e: Encoding, name: bytes, fileName: Option<bytes>)
    ensures ReadDisposition(m, DispositionLine(e, name, fileName)) ==
            Readout(m, "; " + NameParam(e, name) + FileNameParam(fileName))
  {
    Regroup(DISPOSITION, "; " + NameParam(e, name), FileNameParam(fileName));
    DropPrefix(DISPOSITION, "; " + NameParam(e, name) + FileNameParam(fileName));
  }

  function NameValue(key: bytes, value: bytes): Option<bytes> {
    NameOf([Param(key, value)])
  }

  /** What is read once the value of a leading name parameter has been read. */
  function ReadoutFrom(m: Reader, key: bytes, vr: Option<(bytes, bytes)>): Option<Disposition> {
    var (value, rest) :- vr;
    var tail :- ReadParams(m, rest);
    var name :- NameValue(key, value);
    Some(Disposition(name, FileNameOf(tail)))
  }

  lemma LeadingParam(p: Param, tail: seq<Param>)
    requires p.key == "name" || p.key == "name*"
    ensures NameOf([p] + tail) == NameValue(p.key, p.value)
    ensures FileNameOf([p] + tail) == FileNameOf(tail)
  {
    assert ([p] + tail)[1..] == tail;
    assert NameOf([p][1..]) == None;
  }

  lemma ReadoutOfName(m: Reader, key: bytes, v: bytes)
    requires key == "name" || key == "name*"
    ensures Readout(m, "; " + (key + ("=" + v))) == ReadoutFrom(m, key, ReadValue(m, key, v))
  {
    ReadOneParam(m, key, v);
    var vr := ReadValue(m, key, v);
    if vr.Some? && ReadParams(m, vr.value.1).Some? {
      LeadingParam(Param(key, vr.value.0), ReadParams(m, vr.value.1).value);
    }
  }

  /** The file name is read whatever name precedes it. */
  lemma ReadoutFromFileName(m: Reader, key: bytes, value: bytes, fileName: Option<bytes>)
    ensures ReadoutFrom(m, key, Some((value, FileNameParam(fileName)))) ==
            match NameValue(key, value)
            case None => None
            case Some(n) => Some(Disposition(n, fileName))
  {
    ReadFileNameParam(m, fileName);
    if fileName.Some? {
      assert FileNameOf([Param("filename", fileName.value)]) == fileName;
    }
  }

  /** Text that is borrowed holds no quote, and a backslash only if the name does. */
  lemma BorrowedText(e: Encoding, name: bytes)
    requires e != NoOp && (NothingToEncode(e, name) || |name| == 1)
    ensures var text := Encode(e, name);
            && '"' !in text
            && ('\\' in text <==> NothingToEncode(e, name) && '\\' in name)
            && ('\\' in text ==> text == name)
  {
    EncodedMember(e, name, '"');
    EncodedMember(e, name, '\\');
    if NothingToEncode(e, name) {
      EncodeIdentity(e, name);
    } else {
      assert name == [name[0]];
    }
  }

  /** A misread quoted name decodes to something else. */
  lemma MisreadNameDiffers(e: Encoding, name: bytes, value: bytes)
    requires e != NoOp && '"' !in name
    requires '"' in value || |value| < |name|
    ensures PercentDecode(value) != name
  {
    DecodeShrinks(value);
    if '"' in value {
      DecodeKeeps(value, '"');
    }
  }

  lemma ReadQuotedName(m: Reader, text: bytes, tail: bytes)
    ensures ReadValue(m, "name", Quoted(text) + tail) ==
            if m == Verbatim then ReadVerbatim(text + ("\"" + tail)) else ReadQuoted(text + ("\"" + tail))
  {
    QuotedStart(text, tail);
  }

  /** The quoted form: read back exactly when the text holds no backslash, or the reader takes it verbatim. */
  lemma QuotedNameRead(m: Reader, e: Encoding, name: bytes, fileName: Option<bytes>)
    requires e != NoOp && (NothingToEncode(e, name) || |name| == 1)
    ensures var tail := FileNameParam(fileName);
            ReadoutFrom(m, "name", ReadValue(m, "name", Quoted(Encode(e, name)) + tail)) == Some(Disposition(name, fileName))
            <==> Recoverable(m, e, name)
  {
    var text, tail := Encode(e, name), FileNameParam(fileName);
    BorrowedText(e, name);
    ReadQuotedName(m, text, tail);
    if m == Verbatim || '\\' !in text {
      if m == Verbatim {
        VerbatimRoundTrip(text, tail);
      } else {
        PlainRoundTrip(text, tail);
      }
      ReadoutFromFileName(m, "name", text, fileName);
      DecodeEncode(e, name);
    } else {
      BackslashMisread(text, tail);
      var r := ReadQuoted(text + ("\"" + tail));
      if r.Some? {
        MisreadNameDiffers(e, name, r.value.0);
      }
    }
  }

  // ----- the extended form -----

  const CHARSET: bytes := "utf-8''"

  lemma ExtendedStart(text: bytes, tail: bytes)
    ensures (CHARSET + text + tail)[0] == 'u'
    ensures CHARSET <= CHARSET + text && (CHARSET + text)[7..] == text
    ensures NameValue("name*", CHARSET + text) == Some(PercentDecode(text))
  {
  }

  lemma ReadBareUpTo(terminator: bytes, text: bytes, tail: bytes)
    requires SelfDelimiting(terminator) && !Occurs(terminator, text)
    requires tail == [] || terminator <= tail
    ensures ReadBare(terminator, text + tail) == (text, tail)
  {
    if tail == [] {
      assert text + tail == text;
    } else {
      FirstOccurrence(terminator, text, tail[|terminator|..]);
      assert terminator + tail[|terminator|..] == tail;
      assert (text + tail)[..|text|] == text && (text + tail)[|text|..] == tail;
    }
  }

  lemma NoOccurrenceWithout(pat: string, s: bytes, k: nat)
    requires k < |pat| && pat[k] !in s
    ensures !Occurs(pat, s)
  {
    assert forall i :: At(pat, s, i) ==> s[i..i + |pat|][k] == s[i + k];
  }

  /** A bare value is read up to what follows it when it does not hold its terminator. */
  lemma BareValueRead(m: Reader, value: bytes, tail: bytes)
    requires value != [] && value[0] != '"' && !Occurs(Terminator(m), value)
    requires tail == [] || Terminator(m) <= tail
    ensures ReadValue(m, "name*", value + tail) == Some((value, tail))
  {
    ReadBareUpTo(Terminator(m), value, tail);
  }

  lemma ExtendedValueRead(m: Reader, e: Encoding, name: bytes, fileName: Option<bytes>)
    requires e != NoOp && !Occurs(Terminator(m), CHARSET + Encode(e, name))
    ensures ReadoutFrom(m, "name*", ReadValue(m, "name*", CHARSET + Encode(e, name) + FileNameParam(fileName))) ==
            Some(Disposition(name, fileName))
  {
    ExtendedStart(Encode(e, name), FileNameParam(fileName));
    assert FileNameParam(fileName) == [] || Terminator(m) <= FileNameParam(fileName);
    BareValueRead(m, CHARSET + Encode(e, name), FileNameParam(fileName));
    ReadoutFromFileName(m, "name*", CHARSET + Encode(e, name), fileName);
    DecodeEncode(e, name);
  }

  /** The extended form: read back exactly when no bare `;` ends the value early, or the reader looks for `; `. */
  lemma ExtendedNameRead(m: Reader, e: Encoding, name: bytes, fileName: Option<bytes>)
    requires e != NoOp && !NothingToEncode(e, name) && |name| != 1
    ensures var tail := FileNameParam(fileName);
            ReadoutFrom(m, "name*", ReadValue(m, "name*", CHARSET + Encode(e, name) + tail)) == Some(Disposition(name, fileName))
            <==> Recoverable(m, e, name)
  {
    EncodedMember(e, name, ' ');
    EncodedMember(e, name, ';');
    if m == Verbatim {
      NoOccurrenceWithout(Terminator(m), CHARSET + Encode(e, name), 1);
      ExtendedValueRead(m, e, name, fileName);
    } else if ';' !in Encode(e, name) {
      NoOccurrenceWithout(Terminator(m), CHARSET + Encode(e, name), 0);
      ExtendedValueRead(m, e, name, fileName);
    } else {
      SemicolonCuts(e, name, FileNameParam(fileName));
    }
  }

  lemma EncodeAround(e: Encoding, name: bytes, k: nat)
    requires k < |name| && !MustEncode(e, name[k])
    ensures Encode(e, name) == Encode(e, name[..k]) + ([name[k]] + Encode(e, name[k + 1..]))
  {
    assert name == name[..k] + ([name[k]] + name[k + 1..]);
    EncodeAppend(e, name[..k], [name[k]] + name[k + 1..]);
    assert ([name[k]] + name[k + 1..])[1..] == name[k + 1..];
  }

  /** With a bare `;` in the name, the value read is the encoding of what stands before it. */
  lemma SemicolonCuts(e: Encoding, name: bytes, tail: bytes)
    requires e != NoOp && ';' in name && !MustEncode(e, ';')
    ensures var vr := ReadValue(QuotedPair, "name*", CHARSET + Encode(e, name) + tail);
            vr.Some? && NameValue("name*", vr.value.0).Some? && NameValue("name*", vr.value.0).value != name
  {
    FirstIndex(';', name);
    var k :| 0 <= k < |name| && name[k] == ';' && ';' !in name[..k];
    var head, rest := Encode(e, name[..k]), Encode(e, name[k + 1..]) + tail;
    EncodeAround(e, name, k);
    AroundSemicolon(Encode(e, name), head, Encode(e, name[k + 1..]), tail);
    EncodedMember(e, name[..k], ';');
    NotInNoOccurrence(';', CHARSET + head);
    ExtendedStart(head, []);
    BareValueRead(QuotedPair, CHARSET + head, [';'] + rest);
    DecodeEncode(e, name[..k]);
  }

  lemma AroundSemicolon(text: bytes, head: bytes, mid: bytes, tail: bytes)
    requires text == head + ([';'] + mid)
    ensures CHARSET + text + tail == (CHARSET + head) + ([';'] + (mid + tail))
  {
  }

  lemma {:induction false} FirstIndex(c: char, s: bytes)
    requires c in s
    ensures exists k :: 0 <= k < |s| && s[k] == c && c !in s[..k]
  {
    NotInFind(c, s);
    var k := Find([c], s).value;
    assert s[k..k + 1][0] == s[k];
    assert forall j :: 0 <= j < k ==> s[j] == s[j..j + 1][0] && (s[j] == c ==> At([c], s, j));
    assert s[k] == c && c !in s[..k];
  }

  lemma NotInFind(c: char, s: bytes)
    requires c in s
    ensures Find([c], s).Some?
  {
    var i :| 0 <= i < |s| && s[i] == c;
    assert s[i..i + 1] == [c];
    assert At([c], s, i);
  }

  /**
    The name and the file name of a written line are read back exactly when the name is recoverable: always by
    the verbatim reader, always under the attr-char rules, and otherwise unless a backslash or a semicolon that
    the path-segment rules leave alone is misread.
  */
  lemma {:induction false} DispositionRoundTrip(m: Reader, e: Encoding, name: bytes, fileName: Option<bytes>)
    requires e != NoOp
    ensures ReadDisposition(m, DispositionLine(e, name, fileName)) == Some(Disposition(name, fileName)) <==> Recoverable(m, e, name)
  {
    var tail := FileNameParam(fileName);
    ReadoutOfLine(m, e, name, fileName);
    if NothingToEncode(e, name) || |name| == 1 {
      ParamWithTail("name", Quoted(Encode(e, name)), tail);
      ReadoutOfName(m, "name", Quoted(Encode(e, name)) + tail);
      QuotedNameRead(m, e, name, fileName);
    } else {
      ParamWithTail("name*", CHARSET + Encode(e, name), tail);
      ReadoutOfName(m, "name*", CHARSET + Encode(e, name) + tail);
      ExtendedNameRead(m, e, name, fileName);
    }
  }

  lemma ParamWithTail(key: bytes, value: bytes, tail: bytes)
    ensures "; " + (key + ("=" + value)) + tail == "; " + (key + ("=" + (value + tail)))
  {
  }

  /** Under the attr-char rules every name is recoverable by both readers. */
  lemma AttrCharAlwaysRecoverable(m: Reader, name: bytes)
    ensures Recoverable(m, AttrChar, name)
  {
    assert MustEncode(AttrChar, '\\');
  }

  lemma PathSegmentNamesUnrecoverable()
    ensures !Recoverable(QuotedPair, PathSegment, "a\\b")
    ensures !Recoverable(QuotedPair, PathSegment, "a ;b")
  {
    assert "a\\b"[1] == '\\';
    assert "a ;b"[1] == ' ' && "a ;b"[2] == ';';
    assert MustEncode(PathSegment, ' ');
  }

  /** Two names the path-segment rules write so that a reader of the parameter grammar gets something else. */
  lemma PathSegmentNamesLost(fileName: Option<bytes>)
    ensures ReadDisposition(QuotedPair, DispositionLine(PathSegment, "a\\b", fileName)) != Some(Disposition("a\\b", fileName))
    ensures ReadDisposition(QuotedPair, DispositionLine(PathSegment, "a ;b", fileName)) != Some(Disposition("a ;b", fileName))
  {
    PathSegmentNamesUnrecoverable();
    DispositionRoundTrip(QuotedPair, PathSegment, "a\\b", fileName);
    DispositionRoundTrip(QuotedPair, PathSegment, "a ;b", fileName);
  }
}
