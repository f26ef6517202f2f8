/** Forms spelled out byte for byte, as `cyper/tests/multipart.rs` expects them, and a name outside ASCII. */
module WireExamples {
  import opened Prelude
  import opened PercentEncoding
  import opened PartHeaders
  import opened BodyStream
  import opened MultipartReader
  import opened Multipart

  lemma LineOfPlainName(name: bytes, fileName: Option<bytes>)
    requires NothingToEncode(PathSegment, name)
    ensures DispositionStart(PathSegment, name) == "Content-Disposition: form-data; name=\"" + name + "\""
  {
    EncodeIdentity(PathSegment, name);
    NameLiterals(name);
    DispositionPrefix(NameParam(PathSegment, name));
    assert "Content-Disposition: form-data; " + ("name=\"" + name + "\"") == "Content-Disposition: form-data; name=\"" + name + "\"" by {
      assert "Content-Disposition: form-data; " + "name=\"" == "Content-Disposition: form-data; name=\"";
    }
  }

  lemma FormOfOne(b: bytes, e: Encoding, f: FormField)
    ensures FormBytes(b, e, [f]) ==
            "--" + b + "\r\n" + (HeaderBlock(e, f.name, f.part.meta) + ("\r\n\r\n" + (Content(f.part.value) + "\r\n")))
            + ("--" + b + "--\r\n")
  {
    hide HeaderBlock, Content;
    RawsSnoc(e, [], f);
    PartsBytesSnoc(b, [], Raw(e, f));
    assert [] + [f] == [f] && [] + [Raw(e, f)] == Raws(e, [f]);
    assert BLANK == "\r\n\r\n" && "--" + b + "--\r\n" == Closing(b);
  }

  lemma {:induction false} PlainFileName(s: bytes)
    requires forall i :: 0 <= i < |s| ==> !IsSpecial(s[i])
    ensures Escape(s) == s
  {
    if s != [] {
      PlainFileName(s[1..]);
    }
  }

  lemma JoinTwo(a: bytes, b: bytes)
    ensures JoinLines([a, b]) == a + ("\r\n" + b)
  {
    assert [a, b][1..] == [b];
  }

  lemma JoinThree(a: bytes, b: bytes, c: bytes)
    ensures JoinLines([a, b, c]) == a + ("\r\n" + (b + ("\r\n" + c)))
  {
    assert [a, b, c][1..] == [b, c];
    JoinTwo(b, c);
  }

  /** A text field: no file name, no media type, one disposition line. */
  lemma TextField(b: bytes, name: bytes, text: bytes)
    requires NothingToEncode(PathSegment, name)
    ensures FormBytes(b, PathSegment, [FormField(name, Part(PartMetadata(None, None, []), Bytes(text), None))]) ==
            "--" + b + "\r\n"
            + ("Content-Disposition: form-data; name=\"" + name + "\"" + ("\r\n\r\n" + (text + "\r\n")))
            + ("--" + b + "--\r\n")
  {
    hide DispositionStart, FormBytes, NothingToEncode, Content;
    var f := FormField(name, Part(PartMetadata(None, None, []), Bytes(text), None));
    LineOfPlainName(name, None);
    BytesContent(text);
    FormOfOne(b, PathSegment, f);
    var first := DispositionStart(PathSegment, name);
    assert DispositionLine(PathSegment, name, None) == first;
    assert HeaderLines(PathSegment, name, f.part.meta) == [first];
    assert JoinLines([first]) == first;
  }

  /** The header block of a file field with one more header. */
  lemma FileField(name: bytes, fileName: bytes, mime: HeaderValue, custom: CustomField)
    requires NothingToEncode(PathSegment, name) && forall i :: 0 <= i < |fileName| ==> !IsSpecial(fileName[i])
    ensures HeaderBlock(PathSegment, name, PartMetadata(Some(mime), Some(fileName), [custom])) ==
            "Content-Disposition: form-data; name=\"" + name + "\"" + ("; filename=\"" + fileName + "\"")
            + ("\r\n" + ("Content-Type" + ": " + mime + ("\r\n" + (custom.name + ": " + custom.value))))
  {
    hide DispositionStart, NothingToEncode, JoinLines, Escape;
    var meta := PartMetadata(Some(mime), Some(fileName), [custom]);
    LineOfPlainName(name, None);
    PlainFileName(fileName);
    FileNameLiteral(fileName);
    var first, media := DispositionLine(PathSegment, name, Some(fileName)), Field("Content-Type", mime);
    FieldLinesOne(media);
    FieldLinesSnoc([media], custom);
    assert OtherFields(meta) == [media] + [custom];
    assert HeaderLines(PathSegment, name, meta) == [first, FieldLine(media), FieldLine(custom)];
    JoinThree(first, FieldLine(media), FieldLine(custom));
  }

  lemma AccentedText()
    ensures var name := [0xC3 as char, 0xA9 as char];
            Encode(PathSegment, name) == "%C3%A9" && !NothingToEncode(PathSegment, name)
  {
    var name := [0xC3 as char, 0xA9 as char];
    LeftAlone(name[0]);
    LeftAlone(name[1]);
    EncodedByte(PathSegment, name[0]);
    EncodedByte(PathSegment, name[1]);
    EncodeAppend(PathSegment, [name[0]], [name[1]]);
    assert [name[0]] + [name[1]] == name;
  }

  /** A name outside ASCII is not written raw: its bytes are encoded, in the extended form. */
  lemma AccentedName()
    ensures var name := [0xC3 as char, 0xA9 as char];
            DispositionStart(PathSegment, name) == "Content-Disposition: form-data; " + ("name*=utf-8''" + "%C3%A9")
  {
    hide Encode, NothingToEncode;
    AccentedText();
    var name := [0xC3 as char, 0xA9 as char];
    NameLiterals("%C3%A9");
    DispositionPrefix(NameParam(PathSegment, name));
  }
}
