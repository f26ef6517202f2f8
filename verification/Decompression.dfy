/** The streaming decoder of `cyper/src/decompression.rs`. */
module Decompression {
  import opened Prelude
  import opened Codecs

  /** A growable buffer: written bytes and room for more. */
  class Buffer {
    var data: bytes
    var capacity: nat

    constructor (capacity: nat)
      ensures data == [] && this.capacity == capacity
    {
      data, this.capacity := [], capacity;
    }

    ghost predicate Valid()
      reads this
    {
      |data| <= capacity
    }

    function Spare(): nat
      requires Valid()
      reads this
    {
      capacity - |data|
    }

    /** Makes room for at least this much more; how much more is up to the allocator. */
    method Reserve(additional: nat)
      requires Valid()
      modifies this`capacity
      ensures Valid() && Spare() >= additional
    {
      var grown: nat :| grown >= |data| + additional;
      capacity := grown;
    }

    /** Takes bytes written into the spare room as written; there has to have been room for them. */
    method Advance(written: bytes)
      requires Valid() && |written| <= Spare()
      modifies this`data
      ensures Valid() && data == old(data) + written
    {
      data := data + written;
    }
  }

  /** What a body delivers next: data, trailers, or an error. */
  datatype Frame = Data(data: bytes) | Trailers | Broken

  function FrameBytes(f: Frame): bytes {
    match f
    case Data(d) => d
    case _ => []
  }

  function BodyOf(frames: seq<Frame>): bytes {
    if frames == [] then [] else BodyOf(frames[..|frames| - 1]) + FrameBytes(frames[|frames| - 1])
  }

  predicate Unbroken(frames: seq<Frame>) {
    forall i :: 0 <= i < |frames| ==> !frames[i].Broken?
  }

  /** However much of the body has arrived, the codec has nothing to complain about. */
  ghost predicate SoundSoFar<S>(m: Meaning<S>, body: bytes) {
    forall p :: p <= body ==> SoundBody(m, p)
  }

  class Decoder<S(!new)> {
    const codec: Codec<S>
    var inner: S

    constructor (codec: Codec<S>, start: S)
      ensures this.codec == codec && inner == start
    {
      this.codec := codec;
      inner := start;
    }

    /** Makes sure the codec gets its least room. */
    method EnsureSpare(buffer: Buffer)
      requires buffer.Valid()
      modifies buffer`capacity
      ensures buffer.Valid() && buffer.Spare() >= 32768
    {
      if buffer.Spare() < MIN_SPARE {
        buffer.Reserve(MIN_SPARE);
      }
    }

    /** Drains a codec that is at its end. */
    method Drain(buffer: Buffer, ghost m: Meaning<S>) returns (ok: bool)
      requires Lawful(codec, m) && Consistent(m, inner) && m.view(inner).ended && buffer.Valid()
      modifies this`inner, buffer
      ensures buffer.Valid() && old(buffer.data) <= buffer.data
      ensures Moved(m, old(inner), inner, [], buffer.data[|old(buffer.data)|..])
      ensures m.view(inner).ended
      ensures ok ==> Settled(m, inner)
      ensures !ok ==> !m.sound(old(m.view(inner)).fed)
    {
      hide Lawful, Consistent, Settled, Moved, Pending;
      ghost var s0, b0 := inner, buffer.data;
      ghost var written: bytes := [];
      NotMoved(m, inner);
      while true
        invariant buffer.Valid() && buffer.data == b0 + written
        invariant Consistent(m, inner) && m.view(inner).ended && m.view(inner).fed == m.view(s0).fed
        invariant Moved(m, s0, inner, [], written)
        decreases Pending(m, inner)
      {
        EnsureSpare(buffer);
        ghost var s := inner;
        FinishKeepsLaw(codec, m, inner, buffer.Spare());
        var result := codec.finish(inner, buffer.Spare());
        match result {
          case FinishFailed(next) =>
            assert written == buffer.data[|b0|..];
            return false;
          case Finished(flushed, next, w) =>
            inner := next;
            buffer.Advance(w);
            MovedOn(m, s0, s, inner, [], written, [], w);
            FinishedStep(m, s, inner, w);
            written := written + w;
            if flushed {
              break;
            }
        }
      }
      assert written == buffer.data[|b0|..];
      return true;
    }

    /** One call of the codec, with its output appended to the buffer. */
    method DecodeOnce(input: bytes, buffer: Buffer, ghost m: Meaning<S>) returns (result: DecodeResult<S>)
      requires Lawful(codec, m) && Consistent(m, inner) && buffer.Valid()
      modifies this`inner, buffer
      ensures buffer.Valid() && inner == result.next
      ensures exists room :: room >= 32768 && DecodeLaw(m, old(inner), input, room, result)
      ensures buffer.data == old(buffer.data) + (if result.Decoded? then result.written else [])
    {
      hide Lawful, Consistent, Settled, Moved, SoundBody;
      EnsureSpare(buffer);
      DecodeKeepsLaw(codec, m, inner, input, buffer.Spare());
      result := codec.decode(inner, input, buffer.Spare());
      inner := result.next;
      if result.Decoded? {
        buffer.Advance(result.written);
      }
    }

    /**
      Feeds the codec until it writes nothing more, is at its end, or wants more input. Everything the codec writes is
      appended to the buffer; a sound body never fails and leaves nothing pending.
    */
    method DecodeImpl(data: bytes, buffer: Buffer, ghost m: Meaning<S>) returns (r: Option<nat>)
      requires Lawful(codec, m) && Consistent(m, inner) && buffer.Valid()
      modifies this`inner, buffer
      ensures buffer.Valid() && old(buffer.data) <= buffer.data && Consistent(m, inner)
      ensures r.Some? ==>
                && r.value <= |data|
                && Moved(m, old(inner), inner, data[..r.value], buffer.data[|old(buffer.data)|..])
                && (data != [] && r.value == 0 ==> m.view(inner).ended)
                && (data == [] ==> inner == old(inner))
      ensures SoundBody(m, old(m.view(inner)).fed + data) ==> r.Some? && (data != [] ==> Settled(m, inner))
    {
      hide Lawful, Consistent, Settled, Moved, Pending, SoundBody;
      NotMoved(m, inner);
      if data == [] {
        assert buffer.data[|buffer.data|..] == [] == data[..0];
        return Some(0);
      }
      ghost var s0, b0 := inner, buffer.data;
      assert buffer.data[|b0|..] == [] == data[..0];
      var used: nat := 0;
      while true
        invariant used <= |data| && buffer.Valid() && b0 <= buffer.data
        invariant Consistent(m, inner) && Moved(m, s0, inner, data[..used], buffer.data[|b0|..])
        decreases |data| - used, Pending(m, inner)
      {
        ghost var s, b := inner, buffer.data;
        RestOfBody(m, s0, s, data, used, b[|b0|..]);
        var result := DecodeOnce(data[used..], buffer, m);
        MoreWritten(m, s0, s, inner, data, used, result.used, b0, b, buffer.data);
        used := used + result.used;
        match result {
          case Decoded(eof, _, n, w) =>
            if eof {
              ghost var sEnd, bEnd := inner, buffer.data;
              if SoundBody(m, m.view(s0).fed + data) {
                SoundEnd(m, s0, inner, data, used, bEnd[|b0|..]);
              }
              var ok := Drain(buffer, m);
              MoreWritten(m, s0, sEnd, inner, data, used, 0, b0, bEnd, buffer.data);
              if !ok {
                return None;
              }
              break;
            }
            if w == [] {
              break;
            }
            DecodedStep(m, s, inner, data[used - n..][..n], w);
          case DecodeFailed(_, _) =>
            if used >= |data| {
              break;
            }
            return None;
        }
      }
      return Some(used);
    }

    /**
      Decodes a whole payload. It returns just what the codec has written, and only with all of the payload consumed or
      the codec at its end; a sound payload never fails and leaves nothing pending.
    */
    method DecodeAll(data: bytes, ghost m: Meaning<S>) returns (r: Option<bytes>, ghost consumed: nat)
      requires Lawful(codec, m) && Consistent(m, inner)
      modifies this`inner
      ensures Consistent(m, inner)
      ensures r.Some? ==>
                && consumed <= |data| && Moved(m, old(inner), inner, data[..consumed], r.value)
                && (consumed == |data| || m.view(inner).ended)
      ensures SoundBody(m, old(m.view(inner)).fed + data) ==> r.Some? && (data != [] || old(Settled(m, inner)) ==> Settled(m, inner))
    {
      hide Lawful, Consistent, Settled, Moved, SoundBody;
      ghost var s0 := inner;
      NotMoved(m, inner);
      var buffer := new Buffer(MIN_SPARE);
      var offset: nat := 0;
      consumed := 0;
      assert data[..0] == [];
      while true
        invariant fresh(buffer) && buffer.Valid() && Consistent(m, inner)
        invariant offset <= |data| && (offset == |data| ==> data == [] && inner == s0)
        invariant Moved(m, s0, inner, data[..offset], buffer.data)
        decreases |data| - offset
      {
        ghost var s, b := inner, buffer.data;
        RestOfBody(m, s0, s, data, offset, b);
        assert data[offset..] == [] <==> offset == |data|;
        var result := DecodeImpl(data[offset..], buffer, m);
        if result.None? {
          return None, offset;
        }
        var len := result.value;
        AllWritten(m, s0, s, inner, data, offset, len, b, buffer.data);
        offset := offset + len;
        consumed := offset;
        if len == 0 {
          break;
        }
        if offset >= |data| {
          break;
        }
      }
      return Some(buffer.data), offset;
    }

    /**
      Decodes a body frame by frame. Without an error, what is yielded is exactly what the codec has written. For a body
      that is sound so far at every point, the pieces together are the output of the stream in the body, however it is
      cut into frames; if the body breaks, they are that of the stream in the part before the break.
    */
    method DecodeIncoming(frames: seq<Frame>, ghost m: Meaning<S>) returns (ok: bool, pieces: seq<bytes>)
      requires Lawful(codec, m) && Consistent(m, inner)
      modifies this`inner
      ensures Consistent(m, inner)
      ensures forall i :: 0 <= i < |pieces| ==> pieces[i] != []
      ensures ok ==> Unbroken(frames) && m.view(inner).out == old(m.view(inner)).out + Flatten(pieces)
      ensures old(Initial(m, inner)) && SoundSoFar(m, BodyOf(frames)) ==>
                && (ok <==> Unbroken(frames))
                && (ok ==> Flatten(pieces) == m.output(StreamIn(m, BodyOf(frames))))
                && (!ok ==> exists i | 0 <= i < |frames| ::
                      frames[i].Broken? && Unbroken(frames[..i]) && Flatten(pieces) == m.output(StreamIn(m, BodyOf(frames[..i]))))
    {
      hide Lawful, Consistent, Settled, Moved, SoundBody, IsStream, SoundSoFar;
      ghost var out0 := m.view(inner).out;
      ghost var good := Initial(m, inner) && SoundSoFar(m, BodyOf(frames));
      ok, pieces := true, [];
      if good {
        InitialStream(m, inner);
      }
      for i := 0 to |frames|
        invariant Consistent(m, inner) && Unbroken(frames[..i])
        invariant forall k :: 0 <= k < |pieces| ==> pieces[k] != []
        invariant m.view(inner).out == out0 + Flatten(pieces)
        invariant good ==> Settled(m, inner) && IsStream(m, BodyOf(frames[..i]), m.view(inner).fed)
      {
        var frame := frames[i];
        FramesSoFar(frames, i);
        if frame.Broken? {
          if good {
            StreamUnique(m, BodyOf(frames[..i]), m.view(inner).fed, StreamIn(m, BodyOf(frames[..i])));
            SettledOutput(m, inner);
          }
          return false, pieces;
        }
        if frame.Data? {
          ghost var s := inner;
          if good {
            SoundFrame(m, BodyOf(frames), BodyOf(frames[..i]), frame.data, m.view(inner).fed);
          }
          var result;
          ghost var consumed;
          result, consumed := DecodeAll(frame.data, m);
          if result.None? {
            return false, pieces;
          }
          if good {
            StreamAfter(m, s, inner, BodyOf(frames[..i]), frame.data, consumed, result.value);
          }
          OutAfter(m, s, inner, frame.data[..consumed], out0, pieces, result.value);
          if result.value != [] {
            pieces := pieces + [result.value];
          }
        }
      }
      assert frames[..|frames|] == frames;
      if good {
        StreamUnique(m, BodyOf(frames), m.view(inner).fed, StreamIn(m, BodyOf(frames)));
        SettledOutput(m, inner);
      }
    }
  }

  /** Two stretches of work on one body, seen through the growing buffer. */
  lemma MoreWritten<S>(m: Meaning<S>, s0: S, s: S, next: S, data: bytes, used: nat, n: nat, b0: bytes, b: bytes, b': bytes)
    requires used + n <= |data| && b0 <= b <= b'
    requires Moved(m, s0, s, data[..used], b[|b0|..]) && Moved(m, s, next, data[used..][..n], b'[|b|..])
    ensures Consistent(m, next) && Moved(m, s0, next, data[..used + n], b'[|b0|..])
  {
    FurtherInput(data, used, n);
    MovedOn(m, s0, s, next, data[..used], b[|b0|..], data[used..][..n], b'[|b|..]);
    assert b[|b0|..] + b'[|b|..] == b'[|b0|..];
  }

  lemma FinishedStep<S>(m: Meaning<S>, s: S, next: S, written: bytes)
    requires Consistent(m, s) && Moved(m, s, next, [], written)
    ensures Consistent(m, next) && m.view(next).fed == m.view(s).fed
    ensures written != [] ==> Pending(m, next) < Pending(m, s)
  {
    assert m.view(s).fed + [] == m.view(s).fed;
  }

  lemma DecodedStep<S>(m: Meaning<S>, s: S, next: S, input: bytes, written: bytes)
    requires Consistent(m, s) && Moved(m, s, next, input, written) && written != []
    ensures Consistent(m, next)
    ensures input == [] ==> Pending(m, next) < Pending(m, s)
  {
    if input == [] {
      FinishedStep(m, s, next, written);
    }
  }

  lemma AllWritten<S>(m: Meaning<S>, s0: S, s: S, next: S, data: bytes, offset: nat, n: nat, b: bytes, b': bytes)
    requires offset + n <= |data| && b <= b'
    requires Moved(m, s0, s, data[..offset], b) && Moved(m, s, next, data[offset..][..n], b'[|b|..])
    ensures Moved(m, s0, next, data[..offset + n], b')
  {
    assert b[0..] == b && b'[0..] == b';
    MoreWritten(m, s0, s, next, data, offset, n, [], b, b');
  }

  lemma SettledOutput<S>(m: Meaning<S>, s: S)
    ensures Settled(m, s) <==> m.view(s).out == m.output(m.view(s).fed)
  {
  }

  lemma InitialStream<S>(m: Meaning<S>, s: S)
    requires Initial(m, s)
    ensures Settled(m, s) && IsStream(m, [], m.view(s).fed)
  {
  }

  lemma {:induction false} FramesSoFar(frames: seq<Frame>, i: nat)
    requires i < |frames|
    ensures BodyOf(frames[..i + 1]) == BodyOf(frames[..i]) + FrameBytes(frames[i])
    ensures BodyOf(frames[..i + 1]) <= BodyOf(frames)
    ensures Unbroken(frames[..i + 1]) <==> Unbroken(frames[..i]) && !frames[i].Broken?
    ensures frames[i].Broken? ==> !Unbroken(frames)
    ensures !frames[i].Data? ==> BodyOf(frames[..i + 1]) == BodyOf(frames[..i])
  {
    assert BodyOf(frames[..i]) + [] == BodyOf(frames[..i]);
    assert frames[..i + 1][..i] == frames[..i];
    BodyGrows(frames, i + 1);
  }

  lemma {:induction false} BodyGrows(frames: seq<Frame>, i: nat)
    requires i <= |frames|
    ensures BodyOf(frames[..i]) <= BodyOf(frames)
    decreases |frames|
  {
    if i == |frames| {
      assert frames[..i] == frames;
    } else {
      var before := frames[..|frames| - 1];
      assert before[..i] == frames[..i];
      BodyGrows(before, i);
    }
  }

  /** A frame on top of the stream found so far is sound if the body is sound so far. */
  lemma SoundFrame<S>(m: Meaning<S>, body: bytes, before: bytes, data: bytes, fed: bytes)
    requires SoundSoFar(m, body) && before + data <= body && IsStream(m, before, fed)
    ensures SoundBody(m, fed + data)
  {
    forall q | IsStream(m, fed + data, q) ensures m.sound(q) {
      StreamExtends(m, before, data, fed, q);
      assert SoundBody(m, before + data);
    }
  }

  /** After a frame the codec has been fed the stream in the body so far. */
  lemma StreamAfter<S>(m: Meaning<S>, s: S, next: S, before: bytes, data: bytes, consumed: nat, written: bytes)
    requires IsStream(m, before, m.view(s).fed) && consumed <= |data| && Moved(m, s, next, data[..consumed], written)
    requires consumed == |data| || m.view(next).ended
    ensures IsStream(m, before + data, m.view(next).fed)
  {
    var fed := m.view(next).fed;
    assert data[..|data|] == data;
    assert fed <= m.view(s).fed + data;
    assert IsStream(m, m.view(s).fed + data, fed);
    StreamExtends(m, before, data, m.view(s).fed, fed);
  }

  lemma OutAfter<S>(m: Meaning<S>, s: S, next: S, input: bytes, out0: bytes, pieces: seq<bytes>, piece: bytes)
    requires Moved(m, s, next, input, piece) && m.view(s).out == out0 + Flatten(pieces)
    ensures m.view(next).out == out0 + Flatten(if piece == [] then pieces else pieces + [piece])
  {
    FlattenSnoc(pieces, piece);
    Regroup(out0, Flatten(pieces), piece);
    assert out0 + Flatten(pieces) + [] == out0 + Flatten(pieces);
  }
}
