/**
  What the streaming decoder relies on in a codec. A codec is a state machine; its meaning is given from outside, by what
  a state has been fed and has put out, and by the output that fed bytes determine.
*/
module Codecs {
  import opened Prelude

  /** The least room a codec is ever offered for its output. */
  const MIN_SPARE: nat := 32768

  /** A call of `decode` consumes a beginning of its input and writes into the room it is given, or fails. */
  datatype DecodeResult<+S> = Decoded(eof: bool, next: S, used: nat, written: bytes) | DecodeFailed(next: S, used: nat)

  datatype FinishResult<+S> = Finished(flushed: bool, next: S, written: bytes) | FinishFailed(next: S)

  datatype Codec<!S> = Codec(decode: (S, bytes, nat) -> DecodeResult<S>, finish: (S, nat) -> FinishResult<S>)

  datatype View = View(fed: bytes, out: bytes, ended: bool)

  /**
    `output` is what fed bytes decode to, `complete` says where a compressed stream ends, and `sound` which streams,
    whole or cut off, the codec has nothing to complain about.
  */
  datatype Meaning<!S> = Meaning(view: S -> View, output: bytes -> bytes, complete: bytes -> bool, sound: bytes -> bool)

  /** No proper beginning of the text is a complete stream. */
  ghost predicate NoEarlierEnd<S>(m: Meaning<S>, p: bytes) {
    forall k :: 0 <= k < |p| ==> !m.complete(p[..k])
  }

  ghost predicate Consistent<S>(m: Meaning<S>, s: S) {
    var v := m.view(s);
    v.out <= m.output(v.fed) && NoEarlierEnd(m, v.fed) && (v.ended ==> m.complete(v.fed))
  }

  /** All output that the consumed bytes determine has been written. */
  ghost predicate Settled<S>(m: Meaning<S>, s: S) {
    m.view(s).out == m.output(m.view(s).fed)
  }

  /** The part of a body that belongs to the stream: up to its first end, or all of it. */
  ghost predicate IsStream<S>(m: Meaning<S>, body: bytes, p: bytes) {
    p <= body && NoEarlierEnd(m, p) && (p == body || m.complete(p))
  }

  ghost predicate SoundBody<S>(m: Meaning<S>, body: bytes) {
    forall p :: IsStream(m, body, p) ==> m.sound(p)
  }

  ghost predicate Moved<S>(m: Meaning<S>, s: S, next: S, input: bytes, written: bytes) {
    && Consistent(m, next)
    && m.view(next).fed == m.view(s).fed + input
    && m.view(next).out == m.view(s).out + written
  }

  /**
    The contract of `decode`: it never writes past its room; a call that writes nothing without being at the end has
    nothing pending; on input it makes progress; after the end it does nothing more; and a failing call writes nothing,
    and on sound data only means that more input is needed.
  */
  ghost predicate DecodeLaw<S>(m: Meaning<S>, s: S, input: bytes, room: nat, r: DecodeResult<S>) {
    match r
    case Decoded(eof, next, used, written) =>
      && used <= |input| && |written| <= room
      && Moved(m, s, next, input[..used], written)
      && m.view(next).ended == eof
      && (m.view(s).ended ==> eof && used == 0 && written == [])
      && (!eof && written == [] ==> Settled(m, next))
      && (!eof && input != [] ==> used > 0 || written != [])
    case DecodeFailed(next, used) =>
      && used <= |input|
      && Moved(m, s, next, input[..used], [])
      && !m.view(s).ended
      && (SoundBody(m, m.view(s).fed + input) ==> used == |input| && Settled(m, next))
  }

  /** The contract of `finish`, called at the end only: it writes what is pending and says when that is all. */
  ghost predicate FinishLaw<S>(m: Meaning<S>, s: S, room: nat, r: FinishResult<S>) {
    match r
    case Finished(flushed, next, written) =>
      && |written| <= room
      && Moved(m, s, next, [], written)
      && m.view(next).ended
      && (flushed ==> Settled(m, next))
      && (!flushed ==> written != [])
    case FinishFailed(_) => !m.sound(m.view(s).fed)
  }

  ghost predicate Lawful<S(!new)>(c: Codec<S>, m: Meaning<S>) {
    && (forall s, input, room :: room >= MIN_SPARE && Consistent(m, s) ==> DecodeLaw(m, s, input, room, c.decode(s, input, room)))
    && (forall s, room :: room >= MIN_SPARE && Consistent(m, s) && m.view(s).ended ==> FinishLaw(m, s, room, c.finish(s, room)))
  }

  ghost predicate Initial<S>(m: Meaning<S>, s: S) {
    m.view(s) == View([], [], false) && m.output([]) == []
  }

  lemma DecodeKeepsLaw<S(!new)>(c: Codec<S>, m: Meaning<S>, s: S, input: bytes, room: nat)
    requires Lawful(c, m) && Consistent(m, s) && room >= MIN_SPARE
    ensures DecodeLaw(m, s, input, room, c.decode(s, input, room))
  {
  }

  lemma FinishKeepsLaw<S(!new)>(c: Codec<S>, m: Meaning<S>, s: S, room: nat)
    requires Lawful(c, m) && Consistent(m, s) && m.view(s).ended && room >= MIN_SPARE
    ensures FinishLaw(m, s, room, c.finish(s, room))
  {
  }

  /** How much output is pending: what the fed bytes determine beyond what has been written. */
  ghost function Pending<S>(m: Meaning<S>, s: S): (n: nat)
    requires Consistent(m, s)
    ensures n == 0 <==> Settled(m, s)
  {
    |m.output(m.view(s).fed)| - |m.view(s).out|
  }

  lemma MovedOn<S>(m: Meaning<S>, a: S, b: S, c: S, input1: bytes, written1: bytes, input2: bytes, written2: bytes)
    requires Moved(m, a, b, input1, written1) && Moved(m, b, c, input2, written2)
    ensures Moved(m, a, c, input1 + input2, written1 + written2)
  {
    Regroup(m.view(a).fed, input1, input2);
    Regroup(m.view(a).out, written1, written2);
  }

  lemma NotMoved<S>(m: Meaning<S>, s: S)
    requires Consistent(m, s)
    ensures Moved(m, s, s, [], [])
  {
  }

  /** What a codec has been fed and what it is given next make up the same body throughout. */
  lemma RestOfBody<S>(m: Meaning<S>, s0: S, s: S, data: bytes, used: nat, written: bytes)
    requires used <= |data| && Moved(m, s0, s, data[..used], written)
    ensures m.view(s).fed + data[used..] == m.view(s0).fed + data
  {
  }

  lemma FurtherInput(data: bytes, used: nat, n: nat)
    requires used + n <= |data|
    ensures data[..used] + data[used..][..n] == data[..used + n]
  {
  }

  /** On a sound body a codec at its end does not fail to finish. */
  lemma SoundEnd<S>(m: Meaning<S>, s0: S, s: S, data: bytes, used: nat, written: bytes)
    requires used <= |data| && Moved(m, s0, s, data[..used], written) && m.view(s).ended
    requires SoundBody(m, m.view(s0).fed + data)
    ensures m.sound(m.view(s).fed)
  {
    RestOfBody(m, s0, s, data, used, written);
    assert m.view(s).fed <= m.view(s0).fed + data;
    assert IsStream(m, m.view(s0).fed + data, m.view(s).fed);
  }

  /** A body has only one stream in it. */
  lemma StreamUnique<S>(m: Meaning<S>, body: bytes, p: bytes, q: bytes)
    requires IsStream(m, body, p) && IsStream(m, body, q)
    ensures p == q
  {
    assert forall k :: 0 <= k <= |p| ==> p[..k] == body[..k];
    assert forall k :: 0 <= k <= |q| ==> q[..k] == body[..k];
    assert p == p[..|p|] && q == q[..|q|];
  }

  function StreamLength<S>(m: Meaning<S>, body: bytes, from: nat): (n: nat)
    requires from <= |body|
    ensures from <= n <= |body|
    ensures n < |body| ==> m.complete(body[..n])
    ensures forall k :: from <= k < n ==> !m.complete(body[..k])
    decreases |body| - from
  {
    if from == |body| || m.complete(body[..from]) then from else StreamLength(m, body, from + 1)
  }

  /** The stream in a body. */
  function StreamIn<S>(m: Meaning<S>, body: bytes): (p: bytes)
    ensures IsStream(m, body, p)
  {
    var n := StreamLength(m, body, 0);
    assert forall k :: 0 <= k < n ==> body[..n][..k] == body[..k];
    body[..n]
  }

  /** Reading on from the stream found so far finds the stream of the whole. */
  lemma StreamExtends<S>(m: Meaning<S>, a: bytes, b: bytes, p: bytes, q: bytes)
    requires IsStream(m, a, p) && IsStream(m, p + b, q)
    ensures p == a || q == p
    ensures IsStream(m, a + b, q)
  {
    if p != a {
      StreamUnique(m, p + b, p, q);
    }
  }
}
