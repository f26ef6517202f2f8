/** Decoding does not depend on the cut into frames, and codecs that meet the contract exist. */
module DecodingAgrees {
  import opened Prelude
  import opened Codecs
  import opened Decompression

  /** A payload decoded in one piece gives the output of the stream in it. */
  lemma WholePayload<S>(m: Meaning<S>, start: S, end: S, body: bytes, consumed: nat, written: bytes)
    requires Initial(m, start) && consumed <= |body| && Moved(m, start, end, body[..consumed], written)
    requires consumed == |body| || m.view(end).ended
    requires Settled(m, end)
    ensures written == m.output(StreamIn(m, body))
  {
    assert body[..|body|] == body && [] + body == body;
    assert m.view(end).fed == body[..consumed] && m.view(end).out == written;
    StreamUnique(m, body, m.view(end).fed, StreamIn(m, body));
  }

  /**
    Two ways to cut one body into frames, and no cut at all: the same output, for every codec that meets the contract
    and every body that is sound so far at every point.
  */
  method DecodeEveryWay<S(!new)>(codec: Codec<S>, start: S, frames: seq<Frame>, others: seq<Frame>, ghost m: Meaning<S>)
    returns (pieces: seq<bytes>, otherPieces: seq<bytes>, whole: Option<bytes>)
    requires Lawful(codec, m) && Initial(m, start)
    requires Unbroken(frames) && Unbroken(others) && BodyOf(frames) == BodyOf(others)
    requires SoundSoFar(m, BodyOf(frames))
    ensures whole.Some? && Flatten(pieces) == Flatten(otherPieces) == whole.value
    ensures whole.value == m.output(StreamIn(m, BodyOf(frames)))
  {
    hide Lawful, Settled, Moved, SoundBody, IsStream;
    InitialIsConsistent(m, start);
    var body := BodyOf(frames);
    SoundWhole(m, start, body);
    var ok;
    ghost var consumed;
    var d1 := new Decoder(codec, start);
    ok, pieces := d1.DecodeIncoming(frames, m);
    var d2 := new Decoder(codec, start);
    ok, otherPieces := d2.DecodeIncoming(others, m);
    var d3 := new Decoder(codec, start);
    whole, consumed := d3.DecodeAll(body, m);
    WholePayload(m, start, d3.inner, body, consumed, whole.value);
  }

  lemma InitialIsConsistent<S>(m: Meaning<S>, s: S)
    requires Initial(m, s)
    ensures Consistent(m, s) && Settled(m, s)
  {
  }

  lemma SoundWhole<S>(m: Meaning<S>, s: S, body: bytes)
    requires Initial(m, s) && SoundSoFar(m, body)
    ensures SoundBody(m, m.view(s).fed + body)
  {
    assert m.view(s).fed + body == body;
  }

  // ----- codecs that meet the contract -----

  function FirstBytes(s: bytes, n: nat): bytes {
    s[..Min(n, |s|)]
  }

  /** What a codec for a given output function has still to write. */
  function Owed(output: bytes -> bytes, v: View): bytes {
    var o := output(v.fed);
    if |v.out| <= |o| then o[|v.out|..] else []
  }

  /**
    A codec for any output function that only grows with its input: it takes one byte at a time, writes at most `step`
    bytes a call, asks for more input by failing, and leaves what is pending at the end to `finish`.
  */
  function BytewiseCodec(output: bytes -> bytes, complete: bytes -> bool, step: nat): Codec<View> {
    Codec(
      (s: View, input: bytes, room: nat) =>
        if s.ended then Decoded(true, s, 0, [])
        else if complete(s.fed) then Decoded(true, s.(ended := true), 0, [])
        else if Owed(output, s) != [] then
          var w := FirstBytes(Owed(output, s), step);
          Decoded(false, s.(out := s.out + w), 0, w)
        else if input == [] then DecodeFailed(s, 0)
        else
          var t := s.(fed := s.fed + [input[0]]);
          var w := FirstBytes(Owed(output, t), step);
          Decoded(complete(t.fed), t.(out := t.out + w, ended := complete(t.fed)), 1, w),
      (s: View, room: nat) =>
        var w := FirstBytes(Owed(output, s), step);
        Finished(|w| == |Owed(output, s)|, s.(out := s.out + w), w))
  }

  function BytewiseMeaning(output: bytes -> bytes, complete: bytes -> bool): Meaning<View> {
    Meaning((v: View) => v, output, complete, _ => true)
  }

  ghost predicate Growing(output: bytes -> bytes) {
    forall p: bytes, b: byte :: output(p) <= output(p + [b])
  }

  lemma OwedWritten(output: bytes -> bytes, v: View, step: nat)
    requires v.out <= output(v.fed)
    ensures var w := FirstBytes(Owed(output, v), step);
            && v.out + w <= output(v.fed) && |w| <= step
            && (step > 0 && Owed(output, v) != [] ==> w != [])
            && (|w| == |Owed(output, v)| <==> v.out + w == output(v.fed))
  {
    var o, w := output(v.fed), FirstBytes(Owed(output, v), step);
    assert o == v.out + Owed(output, v);
    assert v.out + w == o[..|v.out| + |w|];
  }

  lemma BytewiseDecodes(output: bytes -> bytes, complete: bytes -> bool, step: nat, s: View, input: bytes, room: nat)
    requires Growing(output) && 1 <= step <= MIN_SPARE <= room
    requires var m := BytewiseMeaning(output, complete); Consistent(m, s)
    ensures var m := BytewiseMeaning(output, complete);
            DecodeLaw(m, s, input, room, BytewiseCodec(output, complete, step).decode(s, input, room))
  {
    var m := BytewiseMeaning(output, complete);
    assert input[..0] == [] && s.fed + [] == s.fed && s.out + [] == s.out;
    OwedWritten(output, s, step);
    if !s.ended && !complete(s.fed) && Owed(output, s) == [] {
      if input != [] {
        var t := s.(fed := s.fed + [input[0]]);
        assert input[..1] == [input[0]];
        OneMoreByte(m, s.fed, input[0]);
        assert output(s.fed) <= output(t.fed);
        OwedWritten(output, t, step);
      } else {
        assert Settled(m, s);
      }
    }
  }

  lemma OneMoreByte<S>(m: Meaning<S>, p: bytes, b: byte)
    requires NoEarlierEnd(m, p) && !m.complete(p)
    ensures NoEarlierEnd(m, p + [b])
  {
    assert forall k :: 0 <= k <= |p| ==> (p + [b])[..k] == p[..k];
    assert p[..|p|] == p;
  }

  lemma BytewiseFinishes(output: bytes -> bytes, complete: bytes -> bool, step: nat, s: View, room: nat)
    requires 1 <= step <= MIN_SPARE <= room
    requires var m := BytewiseMeaning(output, complete); Consistent(m, s) && s.ended
    ensures var m := BytewiseMeaning(output, complete);
            FinishLaw(m, s, room, BytewiseCodec(output, complete, step).finish(s, room))
  {
    assert s.fed + [] == s.fed;
    OwedWritten(output, s, step);
  }

  /** The contract is met for every growing output function, every notion of end and every step. */
  lemma {:induction false} BytewiseLawful(output: bytes -> bytes, complete: bytes -> bool, step: nat)
    requires Growing(output) && 1 <= step <= MIN_SPARE && output([]) == []
    ensures var m := BytewiseMeaning(output, complete);
            Lawful(BytewiseCodec(output, complete, step), m) && Initial(m, View([], [], false))
    ensures forall body :: SoundSoFar(BytewiseMeaning(output, complete), body)
  {
    var c, m := BytewiseCodec(output, complete, step), BytewiseMeaning(output, complete);
    forall s, input, room | room >= MIN_SPARE && Consistent(m, s) ensures DecodeLaw(m, s, input, room, c.decode(s, input, room)) {
      BytewiseDecodes(output, complete, step, s, input, room);
    }
    forall s, room | room >= MIN_SPARE && Consistent(m, s) && m.view(s).ended ensures FinishLaw(m, s, room, c.finish(s, room)) {
      BytewiseFinishes(output, complete, step, s, room);
    }
  }

  // ----- one such codec: run lengths -----

  function Repeat(b: byte, n: nat): bytes {
    seq(n, i => b)
  }

  /** Pairs of a count and a byte; a count of zero ends the stream. */
  function Expand(p: bytes): bytes {
    if |p| < 2 || p[0] as int == 0 then [] else Repeat(p[1], p[0] as int) + Expand(p[2..])
  }

  predicate EndsRuns(p: bytes) {
    |p| > 0 && (if p[0] as int == 0 then |p| == 1 else |p| > 2 && EndsRuns(p[2..]))
  }

  lemma {:induction false} ExpandGrows(p: bytes, b: byte)
    ensures Expand(p) <= Expand(p + [b])
  {
    if |p| >= 2 && p[0] as int != 0 {
      ExpandGrows(p[2..], b);
      assert (p + [b])[2..] == p[2..] + [b];
    }
  }

  lemma {:induction false} ExpandStopsAtEnd(runs: bytes, rest: bytes)
    requires EndsRuns(runs)
    ensures Expand(runs + rest) == Expand(runs)
  {
    if runs[0] as int != 0 {
      ExpandStopsAtEnd(runs[2..], rest);
      assert (runs + rest)[2..] == runs[2..] + rest;
    }
  }

  /** Run lengths decoded frame by frame are the expansion of the whole body, however it is cut. */
  method DecodeRuns(frames: seq<Frame>, step: nat) returns (pieces: seq<bytes>)
    requires Unbroken(frames) && 1 <= step <= MIN_SPARE
    ensures Flatten(pieces) == Expand(BodyOf(frames))
  {
    hide IsStream;
    ghost var m := BytewiseMeaning(Expand, EndsRuns);
    forall p: bytes, b: byte ensures Expand(p) <= Expand(p + [b]) {
      ExpandGrows(p, b);
    }
    BytewiseLawful(Expand, EndsRuns, step);
    InitialIsConsistent(m, View([], [], false));
    var d := new Decoder(BytewiseCodec(Expand, EndsRuns, step), View([], [], false));
    var ok;
    ok, pieces := d.DecodeIncoming(frames, m);
    RunsInBody(BodyOf(frames), StreamIn(m, BodyOf(frames)));
  }

  lemma RunsInBody(body: bytes, runs: bytes)
    requires IsStream(BytewiseMeaning(Expand, EndsRuns), body, runs)
    ensures Expand(runs) == Expand(body)
  {
    if runs != body {
      ExpandStopsAtEnd(runs, body[|runs|..]);
      assert runs + body[|runs|..] == body;
    }
  }
}
