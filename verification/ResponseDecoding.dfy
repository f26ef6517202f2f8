/** How a response body is decompressed, and what becomes of its headers (`cyper/src/body.rs`). */
module ResponseDecoding {
  import opened Prelude
  import opened Text
  import opened HeaderMaps
  import opened Codecs
  import opened Decompression
  import opened DecodingAgrees

  const ENCODING: string := "content-encoding"
  const LENGTH: string := "content-length"

  /** A body still arriving, a body received whole (or its error, or nothing once taken), or a decoded stream. */
  datatype ResponseBody =
    | Incoming(frames: seq<Frame>)
    | Blob(data: bytes)
    | BlobFailed
    | BlobTaken
    | Decompressed(ok: bool, pieces: seq<bytes>)

  /** The exact size a body announces, if it does. */
  function SizeHint(body: ResponseBody): Option<nat> {
    match body
    case Blob(data) => Some(|data|)
    case _ => None
  }

  /** What reading a body to its end gives; none if it fails. */
  function Received(body: ResponseBody): Option<bytes> {
    match body
    case Incoming(frames) => if Unbroken(frames) then Some(BodyOf(frames)) else None
    case Blob(data) => Some(data)
    case BlobFailed => None
    case BlobTaken => Some([])
    case Decompressed(ok, pieces) => if ok then Some(Flatten(pieces)) else None
  }

  /** A codec for each encoding that is supported, each with the state it starts in. */
  type Supported<!S> = map<string, (Codec<S>, S)>

  ghost predicate Trusted<S(!new)>(codecs: Supported<S>, meanings: map<string, Meaning<S>>) {
    forall e :: e in codecs ==> e in meanings && Lawful(codecs[e].0, meanings[e]) && Initial(meanings[e], codecs[e].1)
  }

  /** What undoing one coding makes of a body: the output of the stream in it. */
  function Undone<S>(m: Meaning<S>, body: bytes): bytes {
    m.output(StreamIn(m, body))
  }

  /** Whoever reads the decoded body gets what the body would have given, with the coding undone. */
  ghost predicate DecodesTo<S>(m: Meaning<S>, body: ResponseBody, decoded: ResponseBody) {
    Received(body).Some? && SoundSoFar(m, Received(body).value) ==>
      Received(decoded) == Some(Undone(m, Received(body).value))
  }

  /** Decoding applies to a body still arriving or received whole. */
  method Decode<S(!new)>(body: ResponseBody, codec: Codec<S>, start: S, ghost m: Meaning<S>)
    returns (updated: bool, len: Option<nat>, decoded: ResponseBody)
    requires Lawful(codec, m) && Initial(m, start)
    ensures updated <==> body.Incoming? || body.Blob?
    ensures !updated ==> decoded == body
    ensures len == if updated then SizeHint(decoded) else None
    ensures updated ==> DecodesTo(m, body, decoded)
  {
    hide Lawful, Settled, Moved, SoundBody, IsStream;
    InitialIsConsistent(m, start);
    match body {
      case Incoming(frames) =>
        var d := new Decoder(codec, start);
        var ok, pieces := d.DecodeIncoming(frames, m);
        return true, None, Decompressed(ok, pieces);
      case Blob(data) =>
        if SoundSoFar(m, data) {
          SoundWhole(m, start, data);
        }
        var d := new Decoder(codec, start);
        var whole;
        ghost var consumed;
        whole, consumed := d.DecodeAll(data, m);
        match whole {
          case None => return true, None, BlobFailed;
          case Some(bytes) =>
            if SoundSoFar(m, data) {
              WholePayload(m, start, d.inner, data, consumed, bytes);
            }
            return true, Some(|bytes|), Blob(bytes);
        }
      case _ => return false, None, body;
    }
  }

  /** Whether the body is decoded at all: only the first value of the encoding is looked at. */
  predicate Applies<S>(codecs: Supported<S>, headers: Headers, body: ResponseBody) {
    ENCODING in headers && headers[ENCODING][0] in codecs && (body.Incoming? || body.Blob?)
  }

  function WithLength(headers: Headers, len: Option<nat>): Headers {
    match len
    case None => headers
    case Some(n) => headers[LENGTH := [Decimal(n)]]
  }

  /** The headers of a decoded body: no encoding, and a length only if the body announces one. */
  function DecodedHeaders(headers: Headers, body: ResponseBody): Headers {
    WithLength(headers - {ENCODING, LENGTH}, SizeHint(body))
  }

  method FitHeaders(headers: HeaderMap, len: Option<nat>)
    modifies headers
    ensures headers.fields == WithLength(old(headers.fields) - {ENCODING, LENGTH}, len)
  {
    hide Decimal;
    ghost var before: map<string, seq<string>> := headers.fields;
    headers.Remove(ENCODING);
    headers.Remove(LENGTH);
    assert before - {ENCODING} - {LENGTH} == before - {ENCODING, LENGTH};
    if len.Some? {
      headers.Insert(LENGTH, Decimal(len.value));
    }
  }

  /**
    A body in a supported encoding is replaced by its decoding, and the headers are made to fit: the encoding is gone,
    and a length that is still there is the length of what will be received. Otherwise nothing changes.
  */
  method Decompress<S(!new)>(body: ResponseBody, headers: HeaderMap, codecs: Supported<S>, ghost meanings: map<string, Meaning<S>>)
    returns (r: ResponseBody)
    requires Trusted(codecs, meanings)
    modifies headers
    ensures forall k :: k !in {"content-encoding", "content-length"} ==>
              (k in headers.fields <==> k in old(headers.fields))
              && (k in headers.fields ==> headers.fields[k] == old(headers.fields)[k])
    ensures var h := old(headers.fields);
            if "content-encoding" in h && h["content-encoding"][0] in codecs && (body.Incoming? || body.Blob?) then
              && "content-encoding" !in headers.fields
              && (r.Blob? ==> "content-length" in headers.fields && headers.fields["content-length"] == [Decimal(|r.data|)])
              && (!r.Blob? ==> "content-length" !in headers.fields)
            else r == body && headers.fields == h
    ensures !Applies(codecs, old(headers.fields), body) ==> r == body && headers.fields == old(headers.fields)
    ensures Applies(codecs, old(headers.fields), body) ==>
              && headers.fields == DecodedHeaders(old(headers.fields), r)
              && DecodesTo(meanings[old(headers.fields)[ENCODING][0]], body, r)
  {
    hide Lawful, Initial, DecodesTo, WithLength, SizeHint, Decimal;
    ghost var before := headers.fields;
    if ENCODING !in headers.fields || headers.fields[ENCODING][0] !in codecs {
      return body;
    }
    var encoding := headers.fields[ENCODING][0];
    var updated, len;
    updated, len, r := Decode(body, codecs[encoding].0, codecs[encoding].1, meanings[encoding]);
    if updated {
      FitHeaders(headers, len);
      HeadersDecoded(before, r);
    }
  }

  /** Every header but the encoding and the length is what it was. */
  lemma HeadersDecoded(headers: Headers, body: ResponseBody)
    ensures var h := DecodedHeaders(headers, body);
            && (forall k :: k !in {"content-encoding", "content-length"} ==>
                  (k in h <==> k in headers) && (k in h ==> h[k] == headers[k]))
            && "content-encoding" !in h
            && (body.Blob? ==> "content-length" in h && h["content-length"] == [Decimal(|body.data|)])
            && (!body.Blob? ==> "content-length" !in h)
  {
    hide Decimal;
  }

  /** The length field of a decoded body, if it has one, says how many bytes will be received. */
  lemma DecodedLengthIsExact(headers: Headers, body: ResponseBody)
    requires LENGTH in DecodedHeaders(headers, body) && (SizeHint(body).Some? ==> SizeHint(body).value < U64)
    ensures ENCODING !in DecodedHeaders(headers, body)
    ensures |DecodedHeaders(headers, body)[LENGTH]| == 1 && Received(body).Some?
    ensures ParseUnsigned(DecodedHeaders(headers, body)[LENGTH][0], U64) == Some(|Received(body).value|)
  {
    ParsePrinted(SizeHint(body).value, U64);
  }

  // ----- several codings -----

  /** All the listed codings undone; they were applied in the order listed, so the last is undone first. */
  function AllUndone<S>(meanings: map<string, Meaning<S>>, codings: seq<string>, body: bytes): bytes
    requires forall i :: 0 <= i < |codings| ==> codings[i] in meanings
  {
    if codings == [] then body
    else
      var n := |codings| - 1;
      AllUndone(meanings, codings[..n], Undone(meanings[codings[n]], body))
  }

  /** Undoing the first of the listed codings undoes them all, whatever the codecs and the body. */
  ghost predicate FirstIsAll(codings: seq<string>)
    requires codings != []
  {
    forall codecs: Supported<View>, meanings: map<string, Meaning<View>>, body: bytes ::
      Trusted(codecs, meanings) && (forall i :: 0 <= i < |codings| ==> codings[i] in codecs)
      && SoundSoFar(meanings[codings[0]], body) ==>
        Undone(meanings[codings[0]], body) == AllUndone(meanings, codings, body)
  }

  /** Every byte twice: a coding no two of which cancel out. */
  function Twice(p: bytes): bytes {
    if p == [] then [] else Twice(p[..|p| - 1]) + [p[|p| - 1], p[|p| - 1]]
  }

  const TWICE: Codec<View> := BytewiseCodec(Twice, _ => false, 1)

  const TWICE_MEANING: Meaning<View> := BytewiseMeaning(Twice, _ => false)

  lemma TwiceLawful()
    ensures Lawful(TWICE, TWICE_MEANING) && Initial(TWICE_MEANING, View([], [], false))
    ensures forall body :: SoundSoFar(TWICE_MEANING, body)
  {
    hide Lawful, Initial, SoundSoFar;
    forall p: bytes, b: byte ensures Twice(p) <= Twice(p + [b]) {
      assert (p + [b])[..|p|] == p;
    }
    BytewiseLawful(Twice, _ => false, 1);
  }

  lemma {:induction false} TwiceLength(p: bytes)
    ensures |Twice(p)| == 2 * |p|
  {
    if p != [] {
      TwiceLength(p[..|p| - 1]);
    }
  }

  lemma UndoneTwice(body: bytes)
    ensures |Undone(TWICE_MEANING, body)| == 2 * |body|
  {
    assert IsStream(TWICE_MEANING, body, StreamIn(TWICE_MEANING, body));
    TwiceLength(body);
  }

  lemma {:induction false} AllUndoneTwice(meanings: map<string, Meaning<View>>, codings: seq<string>, body: bytes)
    requires forall i :: 0 <= i < |codings| ==> codings[i] in meanings && meanings[codings[i]] == TWICE_MEANING
    ensures |AllUndone(meanings, codings, body)| >= (if codings == [] then 1 else 2) * |body|
  {
    hide Undone;
    if codings != [] {
      var n := |codings| - 1;
      UndoneTwice(body);
      AllUndoneTwice(meanings, codings[..n], Undone(TWICE_MEANING, body));
    }
  }

  /** With the first coding only, the body is decoded as its headers said exactly when they list one coding. */
  lemma {:induction false} FirstIsAllIff(codings: seq<string>)
    requires codings != []
    ensures FirstIsAll(codings) <==> |codings| == 1
  {
    hide Lawful, Initial, SoundSoFar, Undone;
    if |codings| == 1 {
      OneCoding(codings);
    } else {
      var codecs: Supported<View> := map e | e in codings :: (TWICE, View([], [], false));
      var meanings: map<string, Meaning<View>> := map e | e in codings :: TWICE_MEANING;
      var body: bytes := "a";
      var n := |codings| - 1;
      TwiceLawful();
      UndoneTwice(body);
      AllUndoneTwice(meanings, codings[..n], Undone(TWICE_MEANING, body));
      assert Trusted(codecs, meanings) && SoundSoFar(meanings[codings[0]], body);
      assert forall i :: 0 <= i < |codings| ==> codings[i] in codecs && codings[i] in meanings;
      assert Undone(meanings[codings[0]], body) != AllUndone(meanings, codings, body);
    }
  }

  lemma OneCoding(codings: seq<string>)
    requires |codings| == 1
    ensures FirstIsAll(codings)
  {
    hide Undone;
    forall meanings: map<string, Meaning<View>>, body: bytes | codings[0] in meanings
      ensures AllUndone(meanings, codings, body) == Undone(meanings[codings[0]], body)
    {
      assert AllUndone(meanings, codings[..0], Undone(meanings[codings[0]], body)) == Undone(meanings[codings[0]], body);
    }
  }

  /** A body coded twice: one coding is undone, the other is not, and the headers no longer mention either. */
  method TwoCodings() returns (r: ResponseBody, headers: HeaderMap)
    ensures ENCODING !in headers.fields
    ensures Received(r).Some? && Received(r).value != AllUndone(map["x" := TWICE_MEANING], ["x", "x"], "a")
  {
    hide Lawful, Initial, SoundSoFar, Undone;
    headers := new HeaderMap(map[ENCODING := ["x", "x"]]);
    ghost var meanings := map["x" := TWICE_MEANING];
    TwiceLawful();
    r := Decompress(Blob("a"), headers, map["x" := (TWICE, View([], [], false))], meanings);
    var codings := ["x", "x"];
    UndoneTwice("a");
    AllUndoneTwice(meanings, codings[..1], Undone(TWICE_MEANING, "a"));
  }
}
