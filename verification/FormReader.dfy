/** The receiving side of a form, and exactly which forms it gets back field by field. */
module FormReader {
  import opened Prelude
  import opened PercentEncoding
  import opened PartHeaders
  import opened BodyStream
  import opened DispositionReader
  import opened MultipartReader
  import opened Multipart

  /** A field as received: who it is for, the other fields of its header block, and its value. */
  datatype Entry = Entry(disposition: Disposition, fields: seq<Field>, value: bytes)

  function SplitLines(s: bytes): seq<bytes>
    decreases |s|
  {
    match Find(CRLF, s)
    case None => [s]
    case Some(i) => [s[..i]] + SplitLines(s[i + 2..])
  }

  function ReadField(line: bytes): Option<Field> {
    var i :- Find(": ", line);
    Some(Field(line[..i], line[i + 2..]))
  }

  function ReadFields(lines: seq<bytes>): Option<seq<Field>> {
    if lines == [] then Some([])
    else
      var f :- ReadField(lines[0]);
      var rest :- ReadFields(lines[1..]);
      Some([f] + rest)
  }

  function ReadBlock(m: Reader, block: bytes): Option<(Disposition, seq<Field>)> {
    var lines := SplitLines(block);
    if lines == [] then None
    else
      var d :- ReadDisposition(m, lines[0]);
      var fs :- ReadFields(lines[1..]);
      Some((d, fs))
  }

  function ReadEntry(m: Reader, p: ReadPart): Option<Entry> {
    var head :- ReadBlock(m, p.block);
    var value :- p.value;
    Some(Entry(head.0, head.1, value))
  }

  function ReadEntries(m: Reader, ps: seq<ReadPart>): Option<seq<Entry>> {
    if ps == [] then Some([])
    else
      var e :- ReadEntry(m, ps[0]);
      var rest :- ReadEntries(m, ps[1..]);
      Some([e] + rest)
  }

  function ReadForm(m: Reader, b: bytes, body: bytes): Option<seq<Entry>> {
    var parts :- ReadMultipart(b, body);
    ReadEntries(m, parts)
  }

  /** What the sender meant. */
  function Meant(f: FormField): Entry {
    Entry(Disposition(f.name, f.part.meta.fileName), OtherFields(f.part.meta), Content(f.part.value))
  }

  function AllMeant(fs: seq<FormField>): seq<Entry> {
    if fs == [] then [] else [Meant(fs[0])] + AllMeant(fs[1..])
  }

  // ----- lines without line ends -----

  /** No line feed stands first or right after a carriage return, so no line end can occur or be completed. */
  ghost predicate FeedsEscaped(s: bytes) {
    && (s != [] ==> s[0] != LF)
    && forall i :: 0 <= i < |s| && s[i] == CR && i + 1 < |s| ==> s[i + 1] != LF
  }

  lemma FeedsEscapedNoLineEnd(s: bytes)
    requires FeedsEscaped(s)
    ensures !Occurs(CRLF, s)
  {
    assert CRLF[0] == CR && CRLF[1] == LF;
    assert forall i :: At(CRLF, s, i) ==> s[i..i + 2][0] == s[i] && s[i..i + 2][1] == s[i + 1];
  }

  lemma FeedsEscapedAppend(a: bytes, b: bytes)
    requires FeedsEscaped(a) && FeedsEscaped(b)
    ensures FeedsEscaped(a + b)
  {
  }

  lemma {:induction false} EscapeFeeds(s: bytes)
    ensures FeedsEscaped(Escape(s))
  {
    if s != [] {
      EscapeFeeds(s[1..]);
      FeedsEscapedAppend(if IsSpecial(s[0]) then ['\\', s[0]] else [s[0]], Escape(s[1..]));
    }
  }

  lemma NoFeeds(s: bytes)
    requires LF !in s
    ensures FeedsEscaped(s)
  {
  }

  lemma QuotedFeeds(s: bytes)
    requires FeedsEscaped(s)
    ensures FeedsEscaped(Quoted(s))
  {
    FeedsEscapedAppend(s, "\"");
    FeedsEscapedAppend("\"", s + "\"");
  }

  lemma ParamFeeds(key: bytes, value: bytes)
    requires LF !in key && FeedsEscaped(value)
    ensures FeedsEscaped(key + ("=" + value))
    ensures FeedsEscaped("; " + (key + ("=" + value)))
  {
    FeedsEscapedAppend("=", value);
    FeedsEscapedAppend(key, "=" + value);
    FeedsEscapedAppend("; ", key + ("=" + value));
  }

  lemma NameFeeds(e: Encoding, name: bytes)
    requires e != NoOp
    ensures FeedsEscaped("; " + NameParam(e, name))
  {
    hide FeedsEscaped, NothingToEncode, Encode, Quoted;
    EncodedMember(e, name, LF);
    NoFeeds(Encode(e, name));
    NoFeeds(CHARSET);
    QuotedFeeds(Encode(e, name));
    FeedsEscapedAppend(CHARSET, Encode(e, name));
    ParamFeeds("name", Quoted(Encode(e, name)));
    ParamFeeds("name*", CHARSET + Encode(e, name));
  }

  lemma FileNameFeeds(fileName: Option<bytes>)
    ensures FeedsEscaped(FileNameParam(fileName))
  {
    hide Escape, Quoted;
    if fileName.Some? {
      EscapeFeeds(fileName.value);
      QuotedFeeds(Escape(fileName.value));
      ParamFeeds("filename", Quoted(Escape(fileName.value)));
    }
  }

  lemma {:induction false} DispositionFeeds(e: Encoding, name: bytes, fileName: Option<bytes>)
    requires e != NoOp
    ensures FeedsEscaped(DispositionLine(e, name, fileName))
  {
    hide FeedsEscaped, NameParam, FileNameParam;
    NameFeeds(e, name);
    FileNameFeeds(fileName);
    NoFeeds(DISPOSITION);
    FeedsEscapedAppend(DISPOSITION, "; " + NameParam(e, name));
    FeedsEscapedAppend(DispositionStart(e, name), FileNameParam(fileName));
  }

  // ----- header blocks as lines -----

  ghost predicate SoundLine(l: bytes) {
    l != [] && !Occurs(CRLF, l)
  }

  ghost predicate SoundLines(lines: seq<bytes>) {
    forall i :: 0 <= i < |lines| ==> SoundLine(lines[i])
  }

  predicate SoundField(f: Field) {
    f.name != [] && CR !in f.name && LF !in f.name && ':' !in f.name && CR !in f.value && LF !in f.value
  }

  predicate SoundFields(fs: seq<Field>) {
    forall i :: 0 <= i < |fs| ==> SoundField(fs[i])
  }

  lemma MimeFieldSound(mime: Option<HeaderValue>)
    ensures SoundFields(MimeField(mime))
  {
  }

  lemma CustomFieldsSound(fs: seq<CustomField>)
    ensures SoundFields(fs)
  {
  }

  lemma OtherFieldsSound(meta: PartMetadata)
    ensures SoundFields(OtherFields(meta))
  {
    hide SoundField, MimeField;
    MimeFieldSound(meta.mime);
    CustomFieldsSound(meta.headers);
  }

  lemma {:induction false} FieldLinesSound(fs: seq<Field>)
    requires SoundFields(fs)
    ensures |FieldLines(fs)| == |fs| && SoundLines(FieldLines(fs))
    ensures forall i :: 0 <= i < |fs| ==> FieldLines(fs)[i] == FieldLine(fs[i])
    ensures ReadFields(FieldLines(fs)) == Some(fs)
  {
    hide FieldLine, ReadField, SoundField, SoundLine;
    if fs != [] {
      assert forall i :: 0 <= i < |fs[1..]| ==> fs[1..][i] == fs[i + 1];
      FieldLinesSound(fs[1..]);
      FieldLineSound(fs[0]);
      assert FieldLines(fs)[1..] == FieldLines(fs[1..]);
      assert [fs[0]] + fs[1..] == fs;
    }
  }

  lemma FieldLineSound(f: Field)
    requires SoundField(f)
    ensures SoundLine(FieldLine(f)) && ReadField(FieldLine(f)) == Some(f)
  {
    NoFeeds(FieldLine(f));
    FeedsEscapedNoLineEnd(FieldLine(f));
    FieldRoundTrip(f);
  }

  lemma FieldRoundTrip(f: Field)
    requires ':' !in f.name
    ensures ReadField(FieldLine(f)) == Some(f)
  {
    NoOccurrenceWithout(": ", f.name, 0);
    FirstOccurrence(": ", f.name, f.value);
    Regroup(f.name, ": ", f.value);
    assert FieldLine(f)[..|f.name|] == f.name && FieldLine(f)[|f.name| + 2..] == f.value;
  }

  lemma HeaderLinesSound(e: Encoding, name: bytes, meta: PartMetadata)
    requires e != NoOp
    ensures SoundLines(HeaderLines(e, name, meta))
  {
    DispositionFeeds(e, name, meta.fileName);
    FeedsEscapedNoLineEnd(DispositionLine(e, name, meta.fileName));
    OtherFieldsSound(meta);
    FieldLinesSound(OtherFields(meta));
  }

  lemma {:induction false} SplitJoin(lines: seq<bytes>)
    requires lines != [] && SoundLines(lines)
    ensures SplitLines(JoinLines(lines)) == lines
  {
    var s := JoinLines(lines);
    if |lines| > 1 {
      SplitJoin(lines[1..]);
      FirstOccurrence(CRLF, lines[0], JoinLines(lines[1..]));
      assert s[..|lines[0]|] == lines[0] && s[|lines[0]| + 2..] == JoinLines(lines[1..]);
    }
  }

  /** The first blank line after a header block is the one that ends it. */
  lemma {:induction false} JoinHasNoBlankLine(lines: seq<bytes>)
    requires lines != [] && SoundLines(lines)
    ensures NoBlankLine(JoinLines(lines))
  {
    var l := lines[0];
    if |lines| == 1 {
      NoBlankAfterLine(l, []);
      assert CRLF + l + CRLF == CRLF + (l + (CRLF + []));
    } else {
      JoinHasNoBlankLine(lines[1..]);
      var rest := JoinLines(lines[1..]);
      NoBlankAfterLine(l, rest + CRLF);
      assert CRLF + JoinLines(lines) + CRLF == CRLF + (l + (CRLF + (rest + CRLF)));
      assert CRLF + rest + CRLF == CRLF + (rest + CRLF);
    }
  }

  lemma BlankIsTwoLineEnds(s: bytes, i: nat)
    requires At(BLANK, s, i)
    ensures At(CRLF, s, i) && At(CRLF, s, i + 2)
  {
    assert s[i..i + 4][..2] == s[i..i + 2] && s[i..i + 4][2..] == s[i + 2..i + 4];
  }

  /** Putting a sound line in front makes no blank line. */
  lemma {:induction false} NoBlankAfterLine(l: bytes, rest: bytes)
    requires SoundLine(l)
    ensures Occurs(BLANK, CRLF + (l + (CRLF + rest))) ==> Occurs(BLANK, CRLF + rest)
  {
    var s := CRLF + (l + (CRLF + rest));
    var n := |l| + 2;
    assert s == (CRLF + l) + (CRLF + rest);
    if i :| At(BLANK, s, i) {
      BlankIsTwoLineEnds(s, i);
      if i < n {
        LineEndAfterLine(l, rest, i + 2);
        LineEndAfterLine(l, rest, i);
        assert false;
      }
      AtShift(BLANK, CRLF + l, CRLF + rest, i - n);
      assert At(BLANK, CRLF + rest, i - n);
    }
  }

  /** Up to the end of a sound line between two line ends, those two are the only ones. */
  lemma LineEndAfterLine(l: bytes, rest: bytes, i: nat)
    requires SoundLine(l)
    requires At(CRLF, CRLF + (l + (CRLF + rest)), i)
    ensures i == 0 || i >= |l| + 2
  {
    var s := CRLF + (l + (CRLF + rest));
    assert s[i..i + 2][0] == s[i] && s[1] == LF;
    if 2 <= i < |l| + 2 {
      AtShift(CRLF, CRLF, l + (CRLF + rest), i - 2);
      NoStraddle(CRLF, l, CRLF + rest, i - 2);
    }
  }

  // ----- boundary lines -----

  predicate StartsWithBoundary(b: bytes, l: bytes) {
    |l| >= 2 + |b| && l[..2 + |b|] == "--" + b
  }

  /** Custom fields cannot be written so that they look like a delimiter, unless their name begins like one. */
  predicate NoBoundaryName(b: bytes, meta: PartMetadata) {
    forall i :: 0 <= i < |meta.headers| ==> !StartsWithBoundary(b, meta.headers[i].name)
  }

  predicate NoneIsBoundary(b: bytes, lines: seq<bytes>) {
    forall i :: 0 <= i < |lines| ==> !StartsWithBoundary(b, lines[i])
  }

  predicate NoneNamesBoundary(b: bytes, fs: seq<Field>) {
    forall i :: 0 <= i < |fs| ==> !StartsWithBoundary(b, fs[i].name)
  }

  lemma {:induction false} BoundaryInOneLine(b: bytes, l: bytes)
    requires CR !in b && SoundLine(l)
    ensures NoBoundaryLine(b, l) <==> !StartsWithBoundary(b, l)
  {
    var d := Delimiter(b);
    var s := CRLF + l;
    if i :| At(d, s, i) {
      assert s[i..i + |d|][0] == s[i] && s[i..i + |d|][1] == s[i + 1];
      assert At(CRLF, s, i);
      assert l + (CRLF + []) == l + CRLF;
      AtPrefix(CRLF, s, CRLF, i);
      Regroup(CRLF, l, CRLF);
      LineEndAfterLine(l, [], i);
      assert i == 0;
      assert s[..|d|] == CRLF + l[..2 + |b|];
      assert s[..|d|][2..] == l[..2 + |b|] && d[2..] == "--" + b;
    }
    if StartsWithBoundary(b, l) {
      assert s[..|d|] == CRLF + l[..2 + |b|];
      assert At(d, s, 0);
    }
  }

  lemma {:induction false} BoundaryInLines(b: bytes, lines: seq<bytes>)
    requires CR !in b && lines != [] && SoundLines(lines)
    ensures NoBoundaryLine(b, JoinLines(lines)) <==> NoneIsBoundary(b, lines)
  {
    BoundaryInOneLine(b, lines[0]);
    if |lines| > 1 {
      BoundaryInLines(b, lines[1..]);
      DelimiterShape(b);
      var rest := JoinLines(lines[1..]);
      OccursSplit(Delimiter(b), CRLF + lines[0], CRLF + rest);
      Regroup(CRLF, lines[0], CRLF + rest);
      assert forall i :: 1 <= i < |lines| ==> lines[i] == lines[1..][i - 1];
    }
  }

  lemma BoundaryFieldLine(b: bytes, f: Field)
    requires ':' !in b
    ensures StartsWithBoundary(b, FieldLine(f)) <==> StartsWithBoundary(b, f.name)
  {
    var l := FieldLine(f);
    var d := "--" + b;
    assert l[|f.name|] == ':' && ':' !in d;
    if |l| >= |d| {
      assert forall k :: 0 <= k < |d| ==> l[..|d|][k] == l[k];
      if |f.name| >= |d| {
        assert l[..|d|] == f.name[..|d|];
      } else {
        assert l[..|d|][|f.name|] != d[|f.name|];
      }
    }
  }

  lemma NotABoundaryLine(b: bytes, l: bytes)
    requires l != [] && l[0] != '-'
    ensures !StartsWithBoundary(b, l)
  {
    assert |l| >= 2 + |b| ==> l[..2 + |b|][0] == l[0];
  }

  lemma BoundaryInFieldLines(b: bytes, first: bytes, fs: seq<Field>)
    requires ':' !in b && !StartsWithBoundary(b, first)
    requires SoundFields(fs)
    ensures NoneIsBoundary(b, [first] + FieldLines(fs)) <==> NoneNamesBoundary(b, fs)
  {
    hide FieldLine, StartsWithBoundary, SoundLine, SoundFields;
    var lines := [first] + FieldLines(fs);
    FieldLinesSound(fs);
    forall i | 0 <= i < |fs| ensures StartsWithBoundary(b, lines[i + 1]) <==> StartsWithBoundary(b, fs[i].name) {
      BoundaryFieldLine(b, fs[i]);
    }
    forall i | 1 <= i < |lines| ensures StartsWithBoundary(b, lines[i]) <==> StartsWithBoundary(b, fs[i - 1].name) {
      assert lines[i] == lines[(i - 1) + 1];
    }
  }

  lemma BoundaryInOtherFields(b: bytes, meta: PartMetadata)
    ensures NoneNamesBoundary(b, OtherFields(meta)) <==> NoBoundaryName(b, meta)
  {
    hide StartsWithBoundary;
    NotABoundaryLine(b, "Content-Type");
    var fs, k := OtherFields(meta), |MimeField(meta.mime)|;
    assert forall i :: 0 <= i < |meta.headers| ==> fs[k + i] == meta.headers[i];
    assert forall i :: 0 <= i < |fs| ==> if i < k then fs[i].name == "Content-Type" else fs[i] == meta.headers[i - k];
  }

  /** No line of a written header block starts with the boundary unless the name of a custom field does. */
  lemma BoundaryInBlock(b: bytes, e: Encoding, name: bytes, meta: PartMetadata)
    requires IsBoundary(b) && e != NoOp
    ensures NoBoundaryLine(b, HeaderBlock(e, name, meta)) <==> NoBoundaryName(b, meta)
  {
    hide DispositionLine, FieldLine, StartsWithBoundary, SoundLine, NoBoundaryLine, NoneIsBoundary, NoneNamesBoundary,
      NoBoundaryName, JoinLines, FieldLines, OtherFields, SoundLines, SoundFields;
    HeaderLinesSound(e, name, meta);
    BoundaryInLines(b, HeaderLines(e, name, meta));
    OtherFieldsSound(meta);
    DispositionStartsLine(b, e, name, meta.fileName);
    BoundaryInFieldLines(b, DispositionLine(e, name, meta.fileName), OtherFields(meta));
    BoundaryInOtherFields(b, meta);
  }

  lemma DispositionStartsLine(b: bytes, e: Encoding, name: bytes, fileName: Option<bytes>)
    ensures !StartsWithBoundary(b, DispositionLine(e, name, fileName))
  {
    assert DispositionLine(e, name, fileName)[0] == 'C';
    NotABoundaryLine(b, DispositionLine(e, name, fileName));
  }

  // ----- the whole form -----

  /** A header block is read back exactly when the name in it is recoverable. */
  lemma {:induction false} BlockRoundTrip(m: Reader, e: Encoding, name: bytes, meta: PartMetadata)
    requires e != NoOp
    ensures ReadBlock(m, HeaderBlock(e, name, meta)) == Some((Disposition(name, meta.fileName), OtherFields(meta)))
            <==> Recoverable(m, e, name)
  {
    hide DispositionLine, FieldLine, Recoverable, ReadDisposition;
    var fs := OtherFields(meta);
    HeaderLinesSound(e, name, meta);
    SplitJoin(HeaderLines(e, name, meta));
    OtherFieldsSound(meta);
    FieldLinesSound(fs);
    DispositionRoundTrip(m, e, name, meta.fileName);
    assert HeaderLines(e, name, meta)[1..] == FieldLines(fs);
  }

  /** Nothing in the part looks like a delimiter. */
  ghost predicate Deliverable(b: bytes, f: FormField) {
    NoBoundaryName(b, f.part.meta) && NoBoundaryLine(b, Content(f.part.value))
  }

  /** What has to be true of a field for the reader to get it back. */
  ghost predicate Receivable(m: Reader, b: bytes, e: Encoding, f: FormField) {
    Recoverable(m, e, f.name) && Deliverable(b, f)
  }

  ghost predicate AllReceivable(m: Reader, b: bytes, e: Encoding, fs: seq<FormField>) {
    forall i :: 0 <= i < |fs| ==> Receivable(m, b, e, fs[i])
  }

  /** The header block of a part, whatever is in it, ends at its first blank line. */
  lemma BlockHasNoBlankLine(e: Encoding, f: FormField)
    requires e != NoOp
    ensures NoBlankLine(Raw(e, f).block)
  {
    hide DispositionLine;
    HeaderLinesSound(e, f.name, f.part.meta);
    JoinHasNoBlankLine(HeaderLines(e, f.name, f.part.meta));
  }

  lemma {:induction false} RawsReadable(b: bytes, e: Encoding, fs: seq<FormField>)
    requires IsBoundary(b) && e != NoOp
    ensures AllReadable(b, Raws(e, fs)) <==> forall i :: 0 <= i < |fs| ==> Deliverable(b, fs[i])
    ensures forall i :: 0 <= i < |fs| ==> NoBlankLine(Raws(e, fs)[i].block) && Raws(e, fs)[i].value == Content(fs[i].part.value)
  {
    hide HeaderBlock, Content, NoBlankLine, NoBoundaryLine, NoBoundaryName;
    if fs != [] {
      RawsReadable(b, e, fs[1..]);
      BlockHasNoBlankLine(e, fs[0]);
      BoundaryInBlock(b, e, fs[0].name, fs[0].part.meta);
      assert Raws(e, fs)[1..] == Raws(e, fs[1..]) && Raws(e, fs)[0] == Raw(e, fs[0]);
      assert forall i :: 1 <= i < |fs| ==> fs[i] == fs[1..][i - 1] && Raws(e, fs)[i] == Raws(e, fs[1..])[i - 1];
    }
  }

  lemma {:induction false} EntriesRoundTrip(m: Reader, e: Encoding, fs: seq<FormField>)
    requires e != NoOp
    ensures ReadEntries(m, AllAsRead(Raws(e, fs))) == Some(AllMeant(fs))
            <==> forall i :: 0 <= i < |fs| ==> Recoverable(m, e, fs[i].name)
  {
    hide HeaderBlock, Content, Recoverable, ReadBlock, OtherFields;
    if fs != [] {
      EntriesRoundTrip(m, e, fs[1..]);
      BlockRoundTrip(m, e, fs[0].name, fs[0].part.meta);
      var r := AllAsRead(Raws(e, fs));
      assert Raws(e, fs)[1..] == Raws(e, fs[1..]) && Raws(e, fs)[0] == Raw(e, fs[0]);
      assert r[1..] == AllAsRead(Raws(e, fs[1..])) && r[0] == AsRead(Raw(e, fs[0]));
      assert AllMeant(fs)[0] == Meant(fs[0]) && AllMeant(fs)[1..] == AllMeant(fs[1..]);
      assert forall i :: 1 <= i < |fs| ==> fs[i] == fs[1..][i - 1];
    }
  }

  lemma {:induction false} EntriesValues(m: Reader, ps: seq<ReadPart>, fs: seq<FormField>)
    requires ReadEntries(m, ps) == Some(AllMeant(fs))
    ensures |ps| == |fs|
    ensures forall i :: 0 <= i < |fs| ==> ps[i].value == Some(Content(fs[i].part.value))
  {
    hide Content, ReadBlock, OtherFields;
    if ps != [] && fs != [] {
      assert AllMeant(fs)[0] == Meant(fs[0]) && AllMeant(fs)[1..] == AllMeant(fs[1..]);
      EntriesValues(m, ps[1..], fs[1..]);
      assert forall i :: 1 <= i < |fs| ==> fs[i] == fs[1..][i - 1] && ps[i] == ps[1..][i - 1];
    }
  }

  lemma BoundaryHasNoCR(b: bytes)
    requires IsBoundary(b)
    ensures CR !in b
  {
  }

  /**
    A form is received as it was meant, field by field and in order, exactly when every field is receivable: its name
    survives the reader's quoting rules, no custom field of it is named like the boundary, and no line of its value
    starts with the boundary. The media type, the file name and everything else in the custom fields are unrestricted.
  */
  lemma {:induction false} FormRoundTrip(m: Reader, b: bytes, e: Encoding, fs: seq<FormField>)
    requires IsBoundary(b) && e != NoOp && fs != []
    ensures ReadForm(m, b, FormBytes(b, e, fs)) == Some(AllMeant(fs)) <==> AllReceivable(m, b, e, fs)
  {
    hide HeaderBlock, Content, Recoverable, ReadEntry, BodyBytes, NoBlankLine, NoBoundaryLine, NoBoundaryName;
    var ps := Raws(e, fs);
    BoundaryHasNoCR(b);
    RawsReadable(b, e, fs);
    MultipartRoundTrip(b, ps);
    EntriesRoundTrip(m, e, fs);
    var read := ReadMultipart(b, BodyBytes(b, ps));
    if read.Some? && ReadEntries(m, read.value) == Some(AllMeant(fs)) {
      EntriesValues(m, read.value, fs);
      ReadFromStart(b, ps);
      ValuesReadBack(b, ps, read.value);
    }
  }

  /** What has been sent of a form when a value fails is not taken for a form. */
  lemma {:induction false} FailedFormUnread(m: Reader, b: bytes, e: Encoding, fs: seq<FormField>, i: nat)
    requires IsBoundary(b) && e != NoOp && i < |fs|
    requires forall j :: 0 <= j <= i ==> Deliverable(b, fs[j])
    ensures ReadForm(m, b, BrokenOff(b, Raws(e, fs[..i]), Raw(e, fs[i]))) == None
  {
    hide HeaderBlock, Content, ReadEntry, BrokenOff, NoBlankLine, NoBoundaryLine, NoBoundaryName;
    BoundaryHasNoCR(b);
    RawsReadable(b, e, fs[..i]);
    BlockHasNoBlankLine(e, fs[i]);
    BoundaryInBlock(b, e, fs[i].name, fs[i].part.meta);
    BrokenOffUnread(b, Raws(e, fs[..i]), Raw(e, fs[i]));
  }

  // ----- fields that are not received -----

  /** A custom field named like the boundary makes its form unreadable, whatever else is in it. */
  lemma {:induction false} BoundaryNamedFieldLost(m: Reader, b: bytes, e: Encoding, fs: seq<FormField>, i: nat)
    requires IsBoundary(b) && e != NoOp && i < |fs| && !NoBoundaryName(b, fs[i].part.meta)
    ensures ReadForm(m, b, FormBytes(b, e, fs)) != Some(AllMeant(fs))
  {
    hide Recoverable, NoBoundaryLine, NoBoundaryName, ReadForm, FormBytes, AllMeant;
    assert !Receivable(m, b, e, fs[i]);
    FormRoundTrip(m, b, e, fs);
  }

  /** Such a name is legal, with any value. */
  lemma BoundaryNamedField(b: bytes, text: HeaderValue)
    requires IsBoundary(b)
    ensures IsToken("--" + b) && !NoBoundaryName(b, PartMetadata(None, None, [Field("--" + b, text)]))
  {
    BoundaryIsToken(b);
    var field: CustomField := Field("--" + b, text);
    assert StartsWithBoundary(b, PartMetadata(None, None, [field]).headers[0].name);
  }

  lemma BoundaryIsToken(b: bytes)
    requires IsBoundary(b)
    ensures IsToken("--" + b)
  {
    var name := "--" + b;
    forall i | 0 <= i < |name| ensures IsTokenChar(name[i]) {
      assert i >= 2 ==> IsBoundaryChar(b[i - 2]);
    }
  }
}
