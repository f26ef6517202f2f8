/** Forms (`cyper/src/multipart.rs`): the boundary, the stream of a form and the prediction of its length. */
module Multipart {
  import opened Prelude
  import opened PercentEncoding
  import opened PartHeaders
  import opened BodyStream
  import opened MultipartReader

  /** A part of a form; `bodyLength` is the length its maker declared, if any. */
  datatype Part = Part(meta: PartMetadata, value: BodyInner, bodyLength: Option<u64>)

  datatype FormField = FormField(name: bytes, part: Part)

  /**
    A file part streams the file and declares its length, if that could be had. Unless a read fails, the part yields
    the file as it was, so what it declares is true; if one fails, it yields a beginning of the file and fails too.
  */
  method FilePart(file: bytes, lengthKnown: bool, readAt: nat -> Option<nat>, mime: HeaderValue, fileName: Option<bytes>)
    returns (part: Part)
    requires |file| < U64 && ReadsOf(file, readAt)
    ensures part.meta == PartMetadata(Some(mime), fileName, [])
    ensures part.bodyLength == (if lengthKnown then Some(|file|) else None) && ContentLength(part.value).None?
    ensures !Fails(part.value) ==> Content(part.value) == file && Truthful([FormField([], part)])
    ensures Fails(part.value) ==> Content(part.value) <= file && readAt(|Content(part.value)|).None?
  {
    var chunks, failed := WrapAsyncReadAt(file, readAt);
    part := Part(PartMetadata(Some(mime), fileName, []), Stream(chunks, failed), if lengthKnown then Some(|file|) else None);
  }

  // ----- the boundary -----

  /** A number in the given count of lower-case hexadecimal digits, leading zeros included. */
  function Hex(n: nat, digits: nat): (s: bytes)
    ensures |s| == digits
    ensures forall i :: 0 <= i < |s| ==> IsBoundaryChar(s[i]) && s[i] != '-'
  {
    if digits == 0 then [] else Hex(n / 16, digits - 1) + [HexLower(n % 16)]
  }

  function HexNumber(s: bytes): nat {
    if s == [] then 0
    else
      var d := HexValue(s[|s| - 1]);
      16 * HexNumber(s[..|s| - 1]) + (if d.Some? then d.value else 0)
  }

  function Power16(n: nat): nat {
    if n == 0 then 1 else 16 * Power16(n - 1)
  }

  lemma {:induction false} HexRoundTrip(n: nat, digits: nat)
    requires n < Power16(digits)
    ensures HexNumber(Hex(n, digits)) == n
  {
    if digits > 0 {
      HexRoundTrip(n / 16, digits - 1);
      var s := Hex(n, digits);
      assert s[..|s| - 1] == Hex(n / 16, digits - 1);
    }
  }

  predicate IsBoundaryChar(c: char) {
    c == '-' || '0' <= c <= '9' || 'a' <= c <= 'f'
  }

  predicate IsBoundary(b: bytes) {
    |b| == 67 && forall i :: 0 <= i < |b| ==> IsBoundaryChar(b[i])
  }

  function GenBoundary(a: u64, b: u64, c: u64, d: u64): bytes {
    Hex(a, 16) + "-" + Hex(b, 16) + "-" + Hex(c, 16) + "-" + Hex(d, 16)
  }

  lemma Power16Of16()
    ensures Power16(16) == U64
  {
    assert Power16(4) == 0x1_0000 && Power16(8) == 0x1_0000_0000 && Power16(12) == 0x1_0000_0000_0000;
  }

  lemma HyphenatedSlices(a: bytes, b: bytes, c: bytes, d: bytes)
    requires |a| == |b| == |c| == |d| == 16
    ensures var s := a + "-" + b + "-" + c + "-" + d;
            |s| == 67 && s[..16] == a && s[17..33] == b && s[34..50] == c && s[51..] == d
  {
  }

  /** A boundary is 67 hexadecimal digits and hyphens, and the four random numbers can be read off it. */
  lemma BoundaryShape(a: u64, b: u64, c: u64, d: u64)
    ensures var s := GenBoundary(a, b, c, d);
            && IsBoundary(s)
            && HexNumber(s[..16]) == a && HexNumber(s[17..33]) == b
            && HexNumber(s[34..50]) == c && HexNumber(s[51..]) == d
            && |s| == 67 && s[16] == s[33] == s[50] == '-'
            && (forall i :: 0 <= i < |s| ==> '0' <= s[i] <= '9' || 'a' <= s[i] <= 'f' || s[i] == '-')
  {
    hide Power16, HexNumber, Hex;
    Power16Of16();
    HyphenatedSlices(Hex(a, 16), Hex(b, 16), Hex(c, 16), Hex(d, 16));
    HexRoundTrip(a, 16);
    HexRoundTrip(b, 16);
    HexRoundTrip(c, 16);
    HexRoundTrip(d, 16);
  }

  // ----- what a form stands for -----

  function Raw(e: Encoding, f: FormField): RawPart {
    RawPart(HeaderBlock(e, f.name, f.part.meta), Content(f.part.value))
  }

  function Raws(e: Encoding, fs: seq<FormField>): (ps: seq<RawPart>)
    ensures |ps| == |fs|
  {
    if fs == [] then [] else [Raw(e, fs[0])] + Raws(e, fs[1..])
  }

  /** The bytes a form is sent as. */
  function FormBytes(b: bytes, e: Encoding, fs: seq<FormField>): bytes {
    BodyBytes(b, Raws(e, fs))
  }

  function ValueLength(p: Part): Option<nat> {
    if p.bodyLength.Some? then Some(p.bodyLength.value) else ContentLength(p.value)
  }

  /** Every declared length is the length of what the part will yield. */
  ghost predicate Truthful(fs: seq<FormField>) {
    forall i :: 0 <= i < |fs| && fs[i].part.bodyLength.Some? ==> fs[i].part.bodyLength.value == |Content(fs[i].part.value)|
  }

  function Excess(f: FormField): int {
    if f.part.bodyLength.Some? then f.part.bodyLength.value - |Content(f.part.value)| else 0
  }

  /** By how much the declared lengths together exceed the real ones. */
  function Misdeclared(fs: seq<FormField>): int {
    if fs == [] then 0 else Excess(fs[0]) + Misdeclared(fs[1..])
  }

  lemma {:induction false} TruthfulMisdeclaresNothing(fs: seq<FormField>)
    requires Truthful(fs)
    ensures Misdeclared(fs) == 0
  {
    if fs != [] {
      assert forall i :: 0 <= i < |fs[1..]| ==> fs[1..][i] == fs[i + 1];
      TruthfulMisdeclaresNothing(fs[1..]);
    }
  }

  lemma {:induction false} MisdeclaredSnoc(fs: seq<FormField>, f: FormField)
    ensures Misdeclared(fs + [f]) == Misdeclared(fs) + Excess(f)
  {
    if fs == [] {
      assert fs + [f] == [f];
      assert Misdeclared([f][1..]) == 0;
    } else {
      MisdeclaredSnoc(fs[1..], f);
      assert (fs + [f])[1..] == fs[1..] + [f];
    }
  }

  lemma {:induction false} RawsSnoc(e: Encoding, fs: seq<FormField>, f: FormField)
    ensures Raws(e, fs + [f]) == Raws(e, fs) + [Raw(e, f)]
  {
    hide HeaderBlock, Content;
    if fs == [] {
      assert fs + [f] == [f];
      assert Raws(e, [f][1..]) == [];
    } else {
      RawsSnoc(e, fs[1..], f);
      assert (fs + [f])[1..] == fs[1..] + [f];
    }
  }

  lemma {:induction false} PartsBytesSnoc(b: bytes, ps: seq<RawPart>, p: RawPart)
    ensures PartsBytes(b, ps + [p]) == PartsBytes(b, ps) + PartBytes(b, p)
  {
    if ps == [] {
      assert ps + [p] == [p];
      assert PartsBytes(b, [p][1..]) == [];
    } else {
      PartsBytesSnoc(b, ps[1..], p);
      assert (ps + [p])[1..] == ps[1..] + [p];
      Regroup(PartBytes(b, ps[0]), PartsBytes(b, ps[1..]), PartBytes(b, p));
    }
  }

  lemma PartBytesLength(b: bytes, p: RawPart)
    ensures |PartBytes(b, p)| == 2 + |b| + 2 + |p.block| + 4 + |p.value| + 2
  {
  }

  lemma ClosingLength(b: bytes)
    ensures |Closing(b)| == 2 + |b| + 4
  {
  }

  function HeaderBlocks(e: Encoding, fs: seq<FormField>): seq<bytes> {
    seq(|fs|, i requires 0 <= i < |fs| => HeaderBlock(e, fs[i].name, fs[i].part.meta))
  }

  /** The fields before the first one whose length is not known. */
  function Measured(fs: seq<FormField>): (r: seq<FormField>)
    ensures r <= fs
    ensures forall i :: 0 <= i < |r| ==> ValueLength(r[i].part).Some?
    ensures |r| < |fs| ==> ValueLength(fs[|r|].part).None?
  {
    if fs == [] || ValueLength(fs[0].part).None? then [] else [fs[0]] + Measured(fs[1..])
  }

  lemma MeasuredIs(fs: seq<FormField>, k: nat)
    requires k <= |fs| && forall i :: 0 <= i < k ==> ValueLength(fs[i].part).Some?
    requires k < |fs| ==> ValueLength(fs[k].part).None?
    ensures Measured(fs) == fs[..k]
  {
    var r := Measured(fs);
    assert r == fs[..|r|];
  }

  ghost predicate FirstFailing(fs: seq<FormField>, i: nat)
    requires i < |fs|
  {
    Fails(fs[i].part.value) && forall j :: 0 <= j < i ==> !Fails(fs[j].part.value)
  }

  /** What is sent of a part: all of it, or everything up to the error in its value. */
  function Sent(b: bytes, p: RawPart, failed: bool): bytes {
    if failed then CutOffPart(b, p) else PartBytes(b, p)
  }

  lemma PartChunks(b: bytes, block: bytes, value: seq<bytes>, failed: bool)
    ensures Flatten(["--" + b + CRLF] + ([block + BLANK] + (value + (if failed then [] else [CRLF])))) ==
            Sent(b, RawPart(block, Flatten(value)), failed)
  {
    var after := value + (if failed then [] else [CRLF]);
    FlattenCons("--" + b + CRLF, [block + BLANK] + after);
    FlattenCons(block + BLANK, after);
    FlattenSnoc(value, CRLF);
    assert value + [] == value;
    Regroup(block, BLANK, Flatten(after));
  }

  lemma NoParts(b: bytes, e: Encoding)
    ensures FormBytes(b, e, []) == PartsBytes(b, Raws(e, [])) == Flatten([]) == []
  {
  }

  /** What has been sent after the first parts of a form: all of them, or everything up to the first failing value. */
  ghost predicate SentSoFar(b: bytes, e: Encoding, fs: seq<FormField>, n: nat, sent: bytes, failed: bool)
    requires n <= |fs|
  {
    if failed then
      exists i | 0 <= i < n :: FirstFailing(fs, i) && sent == BrokenOff(b, Raws(e, fs[..i]), Raw(e, fs[i]))
    else
      (forall i :: 0 <= i < n ==> !Fails(fs[i].part.value)) && sent == PartsBytes(b, Raws(e, fs[..n]))
  }

  lemma NothingSent(b: bytes, e: Encoding, fs: seq<FormField>)
    ensures SentSoFar(b, e, fs, 0, [], false)
  {
    NoParts(b, e);
  }

  lemma SentOneMore(b: bytes, e: Encoding, fs: seq<FormField>, n: nat, sent: bytes, more: bytes)
    requires n < |fs| && SentSoFar(b, e, fs, n, sent, false)
    requires more == Sent(b, Raw(e, fs[n]), Fails(fs[n].part.value))
    ensures SentSoFar(b, e, fs, n + 1, sent + more, Fails(fs[n].part.value))
  {
    hide Raw, Fails, PartBytes, CutOffPart, Raws, PartsBytes;
    RawsSnoc(e, fs[..n], fs[n]);
    PartsBytesSnoc(b, Raws(e, fs[..n]), Raw(e, fs[n]));
    assert fs[..n] + [fs[n]] == fs[..n + 1];
    if Fails(fs[n].part.value) {
      assert FirstFailing(fs, n);
    }
  }

  lemma BrokenOffIn(b: bytes, e: Encoding, fs: seq<FormField>, n: nat, sent: bytes)
    requires n <= |fs| && SentSoFar(b, e, fs, n, sent, true)
    ensures exists i | 0 <= i < |fs| :: FirstFailing(fs, i) && sent == BrokenOff(b, Raws(e, fs[..i]), Raw(e, fs[i]))
    ensures exists i :: 0 <= i < |fs| && Fails(fs[i].part.value)
  {
  }

  lemma AllSent(b: bytes, e: Encoding, fs: seq<FormField>, sent: bytes)
    requires fs != [] && SentSoFar(b, e, fs, |fs|, sent, false)
    ensures FormBytes(b, e, fs) == sent + ("--" + b + "--\r\n")
    ensures forall i :: 0 <= i < |fs| ==> !Fails(fs[i].part.value)
  {
    assert fs[..|fs|] == fs;
    assert "--" + b + "--\r\n" == Closing(b);
  }

  class Form {
    var boundary: bytes
    var computedHeaders: seq<bytes>
    var fields: seq<FormField>
    var percentEncoding: Encoding

    /** A form without fields; the four numbers are the random ones its boundary is made of. */
    constructor New(a: u64, b: u64, c: u64, d: u64)
      ensures boundary == GenBoundary(a, b, c, d) && IsBoundary(boundary)
      ensures computedHeaders == [] && fields == [] && percentEncoding == PathSegment
    {
      BoundaryShape(a, b, c, d);
      boundary := GenBoundary(a, b, c, d);
      computedHeaders, fields, percentEncoding := [], [], PathSegment;
    }

    method AddPart(name: bytes, part: Part)
      modifies this`fields
      ensures fields == old(fields) + [FormField(name, part)]
    {
      fields := fields + [FormField(name, part)];
    }

    /** The chunks of one part: delimiter line, header block, value, line end. A failing value is the last of them. */
    method PartStream(f: FormField) returns (chunks: seq<bytes>, failed: bool)
      ensures failed <==> Fails(f.part.value)
      ensures Flatten(chunks) == Sent(boundary, Raw(percentEncoding, f), failed)
    {
      hide HeaderBlock, Sent;
      var h := EncodeHeaders(percentEncoding, f.name, f.part.meta);
      var body := new Body(f.part.value);
      var value;
      value, failed := body.IntoStream();
      var first := "--" + boundary + "\r\n";
      var second := h + "\r\n\r\n";
      chunks := [first] + ([second] + (value + (if failed then [] else ["\r\n"])));
      PartChunks(boundary, h, value, failed);
    }

    /**
      Consumes the fields and yields the whole form. If a value fails, what has been read by then is everything up to
      the first such value, which ends it.
    */
    method IntoStream() returns (chunks: seq<bytes>, failed: bool)
      modifies this`fields
      ensures fields == []
      ensures failed <==> exists i :: 0 <= i < |old(fields)| && Fails(old(fields)[i].part.value)
      ensures !failed ==> Flatten(chunks) == FormBytes(boundary, percentEncoding, old(fields))
      ensures failed ==> exists i | 0 <= i < |old(fields)| ::
                && FirstFailing(old(fields), i)
                && Flatten(chunks) == BrokenOff(boundary, Raws(percentEncoding, old(fields)[..i]), Raw(percentEncoding, old(fields)[i]))
    {
      hide Sent, SentSoFar, FormBytes, Fails, FirstFailing, Raw, Raws, BrokenOff, PartsBytes, Flatten;
      NoParts(boundary, percentEncoding);
      if fields == [] {
        return [], false;
      }
      ghost var all := fields;
      NothingSent(boundary, percentEncoding, all);
      var head := fields[0];
      fields := fields[1..];
      chunks, failed := PartStream(head);
      var rest := fields;
      fields := [];
      SentOneMore(boundary, percentEncoding, all, 0, [], Flatten(chunks));
      assert [] + Flatten(chunks) == Flatten(chunks);
      if failed {
        BrokenOffIn(boundary, percentEncoding, all, 1, Flatten(chunks));
        return;
      }
      for i := 0 to |rest|
        invariant fields == [] && !failed
        invariant SentSoFar(boundary, percentEncoding, all, i + 1, Flatten(chunks), failed)
      {
        var next;
        next, failed := PartStream(rest[i]);
        FlattenAppend(chunks, next);
        SentOneMore(boundary, percentEncoding, all, i + 1, Flatten(chunks), Flatten(next));
        chunks := chunks + next;
        if failed {
          BrokenOffIn(boundary, percentEncoding, all, i + 2, Flatten(chunks));
          return;
        }
      }
      var last := "--" + boundary + "--\r\n";
      FlattenSnoc(chunks, last);
      AllSent(boundary, percentEncoding, all, Flatten(chunks));
      chunks := chunks + [last];
    }

    /**
      The predicted length, by a formula of its own over 64-bit arithmetic. It is the length of the stream plus
      whatever the declared lengths claim too much, up to multiples of 2^64; there is none exactly when the length
      of some part is unknown.
    */
    method ComputeLength() returns (r: Option<u64>)
      modifies this`computedHeaders
      ensures r.None? <==> exists i :: 0 <= i < |fields| && fields[i].part.bodyLength.None? && fields[i].part.value.Stream?
      ensures r.Some? ==> r.value == (|FormBytes(boundary, percentEncoding, fields)| + Misdeclared(fields)) % U64
      ensures r.Some? && Truthful(fields) ==>
                (r.value == |FormBytes(boundary, percentEncoding, fields)| <==> |FormBytes(boundary, percentEncoding, fields)| < U64)
      ensures computedHeaders == old(computedHeaders) + HeaderBlocks(percentEncoding, Measured(fields))
    {
      hide HeaderBlock, FormBytes, PartsLength, Content, Measured, Truthful, Misdeclared;
      FormLength(boundary, percentEncoding, []);
      var length: u64 := 0;
      for i := 0 to |fields|
        invariant forall j :: 0 <= j < i ==> ValueLength(fields[j].part).Some?
        invariant length == PartsLength(boundary, percentEncoding, fields[..i]) % U64
        invariant computedHeaders == old(computedHeaders) + HeaderBlocks(percentEncoding, fields[..i])
      {
        var f := fields[i];
        match ValueLength(f.part) {
          case Some(valueLength) =>
            var header := EncodeHeaders(percentEncoding, f.name, f.part.meta);
            computedHeaders := computedHeaders + [header];
            LengthStep(boundary, percentEncoding, fields[..i], f, valueLength);
            assert fields[..i + 1] == fields[..i] + [f];
            AddWrapped(PartsLength(boundary, percentEncoding, fields[..i]), 2 + |boundary| + 2 + |header| + 4 + valueLength + 2);
            length := (length + 2 + |boundary| + 2 + |header| + 4 + valueLength + 2) % U64;
          case None =>
            assert f.part.bodyLength.None? && f.part.value.Stream?;
            MeasuredIs(fields, i);
            return None;
        }
      }
      MeasuredIs(fields, |fields|);
      assert fields[..|fields|] == fields;
      FormLength(boundary, percentEncoding, fields);
      if fields != [] {
        AddWrapped(PartsLength(boundary, percentEncoding, fields), 2 + |boundary| + 4);
        length := (length + 2 + |boundary| + 4) % U64;
      }
      ExactUnlessWrapped(boundary, percentEncoding, fields);
      return Some(length);
    }
  }

  /** The length of the parts of a form as their declared lengths have it. */
  function PartsLength(b: bytes, e: Encoding, fs: seq<FormField>): int {
    |PartsBytes(b, Raws(e, fs))| + Misdeclared(fs)
  }

  lemma LengthStep(b: bytes, e: Encoding, fs: seq<FormField>, f: FormField, valueLength: nat)
    requires ValueLength(f.part) == Some(valueLength)
    ensures PartsLength(b, e, fs + [f]) ==
            PartsLength(b, e, fs) + (2 + |b| + 2 + |HeaderBlock(e, f.name, f.part.meta)| + 4 + valueLength + 2)
  {
    hide HeaderBlock, Content;
    RawsSnoc(e, fs, f);
    PartsBytesSnoc(b, Raws(e, fs), Raw(e, f));
    PartBytesLength(b, Raw(e, f));
    MisdeclaredSnoc(fs, f);
    KnownLengthIsExact(f.part.value);
  }

  lemma AddWrapped(n: int, more: nat)
    ensures (n % U64 + more) % U64 == (n + more) % U64
  {
  }

  lemma ExactUnlessWrapped(b: bytes, e: Encoding, fs: seq<FormField>)
    ensures var n := |FormBytes(b, e, fs)|;
            Truthful(fs) ==> ((n + Misdeclared(fs)) % U64 == n <==> n < U64)
  {
    hide FormBytes, Misdeclared;
    if Truthful(fs) {
      TruthfulMisdeclaresNothing(fs);
    }
  }

  lemma FormLength(b: bytes, e: Encoding, fs: seq<FormField>)
    ensures PartsLength(b, e, []) == 0
    ensures |FormBytes(b, e, fs)| + Misdeclared(fs) ==
            PartsLength(b, e, fs) + (if fs == [] then 0 else 2 + |b| + 4)
  {
    ClosingLength(b);
    assert fs == [] ==> Raws(e, fs) == [];
  }

  /** A stream of single bytes. */
  function Letters(n: nat): seq<bytes> {
    seq(n, i => "a")
  }

  lemma {:induction false} LettersLength(n: nat)
    ensures |Flatten(Letters(n))| == n
  {
    if n > 0 {
      LettersLength(n - 1);
      assert Letters(n)[1..] == Letters(n - 1);
      FlattenCons("a", Letters(n - 1));
      assert Letters(n) == ["a"] + Letters(n - 1);
    }
  }

  function HugeForm(): seq<FormField> {
    [FormField("a", Part(PartMetadata(None, None, []), Stream(Letters(U64 - 1), false), Some(U64 - 1)))]
  }

  /** A form with a stream of declared length, and truthfully so, whose predicted length is not its length. */
  lemma {:induction false} HugeFormMispredicted(b: bytes, e: Encoding)
    ensures Truthful(HugeForm()) && ValueLength(HugeForm()[0].part).Some?
    ensures var n := |FormBytes(b, e, HugeForm())|; (n + Misdeclared(HugeForm())) % U64 != n
  {
    hide HeaderBlock, PartBytes, FormBytes, Letters;
    var fs := HugeForm();
    var p := Raw(e, fs[0]);
    LettersLength(U64 - 1);
    assert Content(fs[0].part.value) == Flatten(Letters(U64 - 1));
    PartBytesLength(b, p);
    RawsSnoc(e, [], fs[0]);
    PartsBytesSnoc(b, [], p);
    assert [] + [fs[0]] == fs && [] + [p] == Raws(e, fs);
    FormLength(b, e, fs);
    TruthfulMisdeclaresNothing(fs);
    ExactUnlessWrapped(b, e, fs);
  }
}
