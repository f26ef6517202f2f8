/** Request bodies (`cyper/src/body.rs`): what a body yields frame by frame, and the reader that streams a file. */
module BodyStream {
  import opened Prelude

  /** A body held in memory, or a stream that can be taken only once: some chunks, and then its end or an error. */
  datatype BodyInner = Bytes(data: bytes) | Stream(chunks: seq<bytes>, broken: bool)

  /** The frames a body has still to yield: one for bytes, unless there are none. */
  function Frames(body: BodyInner): seq<bytes> {
    match body
    case Bytes(b) => if b == [] then [] else [b]
    case Stream(chunks, _) => chunks
  }

  /** Whether reading the body ends in an error. */
  predicate Fails(body: BodyInner) {
    body.Stream? && body.broken
  }

  function Content(body: BodyInner): bytes {
    Flatten(Frames(body))
  }

  function ContentLength(body: BodyInner): Option<nat> {
    match body
    case Bytes(b) => Some(|b|)
    case Stream(_, _) => None
  }

  function TryClone(body: BodyInner): Option<BodyInner> {
    match body
    case Bytes(b) => Some(Bytes(b))
    case Stream(_, _) => None
  }

  const EMPTY: BodyInner := Bytes([])

  lemma BytesContent(b: bytes)
    ensures Content(Bytes(b)) == b
  {
    if b != [] {
      FlattenCons(b, []);
      assert [b] + [] == [b];
    }
  }

  /** A length known without reading is the length of what will be read, and a clone reads the same. */
  lemma KnownLengthIsExact(body: BodyInner)
    ensures ContentLength(body).Some? ==> |Content(body)| == ContentLength(body).value
    ensures TryClone(body).Some? ==> Content(TryClone(body).value) == Content(body)
    ensures TryClone(body).Some? <==> ContentLength(body).Some?
    ensures ContentLength(body).Some? <==> body.Bytes?
  {
    if body.Bytes? {
      BytesContent(body.data);
    }
  }

  datatype Polled = Frame(data: bytes) | Failed | End

  lemma MoveOne(done: seq<bytes>, next: bytes, rest: seq<bytes>)
    ensures done + ([next] + rest) == done + [next] + rest
  {
  }

  class Body {
    var inner: BodyInner

    constructor (inner: BodyInner)
      ensures this.inner == inner
    {
      this.inner := inner;
    }

    /** The next frame; taking it leaves the rest. An error comes after the frames, once. */
    method PollFrame() returns (next: Polled)
      modifies this
      ensures next.End? ==> old(Frames(inner)) == [] && !old(Fails(inner)) && inner == old(inner)
      ensures next.Failed? ==> old(Frames(inner)) == Frames(inner) == [] && old(Fails(inner)) && !Fails(inner)
      ensures next.Frame? ==> old(Frames(inner)) == [next.data] + Frames(inner) && old(Fails(inner)) == Fails(inner)
    {
      match inner {
        case Bytes(b) =>
          if b == [] {
            next := End;
          } else {
            inner := Bytes([]);
            next := Frame(b);
          }
        case Stream(chunks, broken) =>
          if chunks != [] {
            inner := Stream(chunks[1..], broken);
            next := Frame(chunks[0]);
          } else if broken {
            inner := Stream([], false);
            next := Failed;
          } else {
            next := End;
          }
      }
    }

    /** All remaining frames, in order, up to the end or the error. */
    method IntoStream() returns (frames: seq<bytes>, failed: bool)
      modifies this
      ensures frames == old(Frames(inner)) && failed == old(Fails(inner))
    {
      hide Frames, Fails;
      frames := [];
      var next := PollFrame();
      while next.Frame?
        invariant next.Frame? ==> frames + ([next.data] + Frames(inner)) == old(Frames(inner)) && Fails(inner) == old(Fails(inner))
        invariant !next.Frame? ==> frames == old(Frames(inner)) && next.Failed? == old(Fails(inner))
        decreases |Frames(inner)|, next.Frame?
      {
        MoveOne(frames, next.data, Frames(inner));
        frames := frames + [next.data];
        next := PollFrame();
      }
      failed := next.Failed?;
    }
  }

  const READ_SIZE: nat := 4096

  /** Positional reads of a file: each returns at least one byte before the end and none at it, or fails. */
  ghost predicate ReadsOf(file: bytes, readAt: nat -> Option<nat>) {
    forall offset: nat :: offset <= |file| && readAt(offset).Some? ==>
      && readAt(offset).value <= Min(READ_SIZE, |file| - offset)
      && (readAt(offset).value == 0 ==> offset == |file|)
  }

  /**
    Streams a file by positional reads of any size. Unless a read fails, the chunks are the whole file, so its length
    is a truthful declared length; after a failure what was yielded is a beginning of it.
  */
  method WrapAsyncReadAt(file: bytes, readAt: nat -> Option<nat>) returns (chunks: seq<bytes>, failed: bool)
    requires ReadsOf(file, readAt)
    ensures !failed ==> Flatten(chunks) == file
    ensures failed ==> Flatten(chunks) <= file && readAt(|Flatten(chunks)|).None?
    ensures forall i :: 0 <= i < |chunks| ==> 1 <= |chunks[i]| <= 4096
  {
    chunks, failed := [], false;
    var offset: nat := 0;
    while true
      invariant offset <= |file| && Flatten(chunks) == file[..offset]
      invariant forall i :: 0 <= i < |chunks| ==> 1 <= |chunks[i]| <= READ_SIZE
      decreases |file| - offset
    {
      var res := readAt(offset);
      if res.None? {
        failed := true;
        return;
      }
      var len := res.value;
      if len == 0 {
        break;
      }
      var buffer := file[offset..offset + len];
      FlattenSnoc(chunks, buffer);
      assert file[..offset] + buffer == file[..offset + len];
      offset := offset + len;
      chunks := chunks + [buffer];
    }
    assert file[..|file|] == file;
  }
}
