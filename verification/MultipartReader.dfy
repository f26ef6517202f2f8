/**
  A reader of multipart bodies after section 5.1.1 of RFC 2046, and exactly which bodies it reads back part by part.
  This module knows nothing of how the header blocks are made; a part is a block and a value.
*/
module MultipartReader {
  import opened Prelude

  datatype RawPart = RawPart(block: bytes, value: bytes)

  /** A part as read; one without a blank line has a header block only. */
  datatype ReadPart = ReadPart(block: bytes, value: Option<bytes>)

  const BLANK: bytes := CRLF + CRLF

  function Delimiter(b: bytes): (d: bytes)
    ensures |d| >= 4
  {
    CRLF + ("--" + b)
  }

  // ----- writing -----

  function PartBytes(b: bytes, p: RawPart): bytes {
    "--" + b + CRLF + (p.block + (BLANK + (p.value + CRLF)))
  }

  function PartsBytes(b: bytes, ps: seq<RawPart>): bytes {
    if ps == [] then [] else PartBytes(b, ps[0]) + PartsBytes(b, ps[1..])
  }

  function Closing(b: bytes): bytes {
    "--" + b + ("--" + CRLF)
  }

  /** The whole body; a form without parts has an empty one. */
  function BodyBytes(b: bytes, ps: seq<RawPart>): bytes {
    if ps == [] then [] else PartsBytes(b, ps) + Closing(b)
  }

  /** A part that breaks off in its value. */
  function CutOffPart(b: bytes, p: RawPart): bytes {
    "--" + b + CRLF + (p.block + (BLANK + p.value))
  }

  /** A body that breaks off in the value of its last part. */
  function BrokenOff(b: bytes, ps: seq<RawPart>, last: RawPart): bytes {
    PartsBytes(b, ps) + CutOffPart(b, last)
  }

  // ----- reading -----

  /** Drops the transport padding that may follow a delimiter. */
  function SkipPadding(s: bytes): (r: bytes)
    ensures |r| <= |s|
  {
    if s != [] && (s[0] == ' ' || s[0] == '\t') then SkipPadding(s[1..]) else s
  }

  /** Splits the text between two delimiter lines, its leading CRLF included, at its first blank line. */
  function SplitPart(text: bytes): ReadPart {
    match Find(BLANK, text)
    case Some(p) => ReadPart(if p >= 2 then text[2..p] else [], Some(text[p + 4..]))
    case None => ReadPart(if |text| >= 2 then text[2..] else [], None)
  }

  predicate Begins(s: bytes, a: byte, b: byte) {
    |s| >= 2 && s[0] == a && s[1] == b
  }

  /** The texts of the parts in what follows a delimiter, up to the closing delimiter. */
  function CutParts(delimiter: bytes, s: bytes): Option<seq<bytes>>
    requires delimiter != []
    decreases |s|
  {
    if Begins(s, '-', '-') then Some([])
    else
      var line := SkipPadding(s);
      if !Begins(line, CR, LF) then None
      else
        var e :- Find(delimiter, line);
        var tail :- CutParts(delimiter, line[e + |delimiter|..]);
        Some([line[..e]] + tail)
  }

  function SplitParts(texts: seq<bytes>): seq<ReadPart> {
    if texts == [] then [] else [SplitPart(texts[0])] + SplitParts(texts[1..])
  }

  /** A delimiter begins on a line of its own; the text may begin with one, and what precedes the first is dropped. */
  function ReadMultipart(b: bytes, body: bytes): Option<seq<ReadPart>> {
    var s := CRLF + body;
    var e :- Find(Delimiter(b), s);
    var texts :- CutParts(Delimiter(b), s[e + |Delimiter(b)|..]);
    Some(SplitParts(texts))
  }

  // ----- what can be read back -----

  /** No line of the text starts with the boundary. */
  ghost predicate NoBoundaryLine(b: bytes, text: bytes) {
    !Occurs(Delimiter(b), CRLF + text)
  }

  /** No blank line before, in or right after the header block. */
  ghost predicate NoBlankLine(block: bytes) {
    !Occurs(BLANK, CRLF + block + CRLF)
  }

  ghost predicate Readable(b: bytes, p: RawPart) {
    NoBlankLine(p.block) && NoBoundaryLine(b, p.block) && NoBoundaryLine(b, p.value)
  }

  ghost predicate AllReadable(b: bytes, ps: seq<RawPart>) {
    ps == [] || (Readable(b, ps[0]) && AllReadable(b, ps[1..]))
  }

  function AsRead(p: RawPart): ReadPart {
    ReadPart(p.block, Some(p.value))
  }

  function AllAsRead(ps: seq<RawPart>): seq<ReadPart> {
    if ps == [] then [] else [AsRead(ps[0])] + AllAsRead(ps[1..])
  }

  /** The text of one part between the CRLF of its delimiter line and the CRLF of the next delimiter. */
  function PartText(p: RawPart): bytes {
    CRLF + p.block + (BLANK + p.value)
  }

  /** What follows the delimiter that opens the first of the given parts. */
  function AfterDelimiter(b: bytes, ps: seq<RawPart>): bytes {
    if ps == [] then "--" + CRLF
    else PartText(ps[0]) + (Delimiter(b) + AfterDelimiter(b, ps[1..]))
  }

  /** The CRLF that ends a value is the one that begins the next delimiter. */
  lemma {:induction false} PartsRegroup(b: bytes, ps: seq<RawPart>)
    ensures CRLF + (PartsBytes(b, ps) + Closing(b)) == Delimiter(b) + AfterDelimiter(b, ps)
  {
    if ps == [] {
      assert PartsBytes(b, ps) + Closing(b) == Closing(b);
    } else {
      PartsRegroup(b, ps[1..]);
      OnePartRegroup(b, ps[0], PartsBytes(b, ps[1..]) + Closing(b));
      Regroup(PartBytes(b, ps[0]), PartsBytes(b, ps[1..]), Closing(b));
    }
  }

  lemma OnePartRegroup(b: bytes, p: RawPart, rest: bytes)
    ensures CRLF + (PartBytes(b, p) + rest) == Delimiter(b) + (PartText(p) + (CRLF + rest))
  {
  }

  lemma DelimiterShape(b: bytes)
    requires CR !in b
    ensures SelfDelimiting(Delimiter(b)) && Delimiter(b)[0] == CR && Delimiter(b)[2] == '-'
  {
    assert Delimiter(b)[1..] == [LF, '-', '-'] + b;
  }

  /** A boundary line in the text of a part lies in its block or in its value: none can overlap the blank line. */
  lemma BoundaryLineInPart(b: bytes, p: RawPart)
    requires CR !in b
    ensures Occurs(Delimiter(b), PartText(p)) <==> !(NoBoundaryLine(b, p.block) && NoBoundaryLine(b, p.value))
  {
    var d := Delimiter(b);
    DelimiterShape(b);
    var tail := CRLF + p.value;
    assert BLANK + p.value == CRLF + tail;
    OccursSplit(d, CRLF + p.block, CRLF + tail);
    OccursSplit(d, CRLF, tail);
    assert !Occurs(d, CRLF);
  }

  /** In the text of a part whose block has no blank line, the first one is the separator. */
  lemma {:induction false} FirstBlank(p: RawPart)
    ensures At(BLANK, PartText(p), |p.block| + 2)
    ensures NoBlankLine(p.block) <==> Find(BLANK, PartText(p)) == Some(|p.block| + 2)
  {
    var text := PartText(p);
    var n := |p.block| + 2;
    var head := CRLF + p.block + CRLF;
    assert text == head + (CRLF + p.value);
    assert text[n..n + 4] == BLANK;
    if i :| At(BLANK, head, i) {
      AtPrefix(BLANK, head, CRLF + p.value, i);
      assert At(BLANK, text, i) && i < n;
    }
    if NoBlankLine(p.block) {
      forall i | i < n ensures !At(BLANK, text, i) {
        assert text[n] == CR;
        assert At(BLANK, text, i) ==> text[i..i + 4][1] == text[i + 1] == LF;
        if i + 4 <= |head| {
          AtPrefix(BLANK, head, CRLF + p.value, i);
        }
      }
    }
    FindNotAfter(BLANK, text, n);
  }

  /** The text of a part is split at its own blank line exactly when its block has none. */
  lemma {:induction false} SplitWhole(p: RawPart)
    ensures SplitPart(PartText(p)) == AsRead(p) <==> NoBlankLine(p.block)
  {
    var text := PartText(p);
    var n := |p.block| + 2;
    FirstBlank(p);
    FindNotAfter(BLANK, text, n);
    assert text[2..n] == p.block && text[n + 4..] == p.value;
  }

  /** A part cut short by a boundary line is never read as what was written: if its block is sound, the value differs. */
  lemma {:induction false} SplitCut(p: RawPart, e: nat)
    requires e + 4 <= |PartText(p)|
    ensures SplitPart(PartText(p)[..e]) != AsRead(p)
    ensures NoBlankLine(p.block) ==> SplitPart(PartText(p)[..e]).value != Some(p.value)
  {
    var text := PartText(p);
    assert |text| == |p.block| + |p.value| + 6;
    if Find(BLANK, text[..e]).Some? && NoBlankLine(p.block) {
      var k := Find(BLANK, text[..e]).value;
      AtPrefix(BLANK, text[..e], text[e..], k);
      assert text[..e] + text[e..] == text;
      FirstBlank(p);
      assert k >= |p.block| + 2;
    }
  }

  lemma {:induction false} CutStep(d: bytes, s: bytes, e: nat, text: bytes, rest: bytes)
    requires d != [] && Begins(s, CR, LF) && Find(d, s) == Some(e)
    requires s[..e] == text && s[e + |d|..] == rest
    ensures CutParts(d, s) == match CutParts(d, rest) case None => None case Some(t) => Some([text] + t)
  {
    hide Find, Occurs;
    assert SkipPadding(s) == s;
    assert CutParts(d, s).Some? <==> CutParts(d, s[e + |d|..]).Some?;
  }

  lemma PartTextStart(p: RawPart, rest: bytes)
    ensures Begins(PartText(p) + rest, CR, LF)
  {
  }

  lemma CutsOfAppend(a: bytes, d: bytes, rest: bytes, e: nat)
    requires e <= |a|
    ensures (a + (d + rest))[..e] == a[..e] && a[..|a|] == a
    ensures (a + (d + rest))[|a| + |d|..] == rest
  {
  }

  /** The text before a delimiter is cut at the first delimiter it holds itself, if any. */
  lemma {:induction false} CutFirst(d: bytes, text: bytes, rest: bytes)
    requires SelfDelimiting(d) && Begins(text + (d + rest), CR, LF)
    ensures var r := CutParts(d, text + (d + rest));
            if Occurs(d, text) then
              r.Some? ==> r.value != [] && r.value[0] == text[..Find(d, text).value]
            else
              r == match CutParts(d, rest) case None => None case Some(t) => Some([text] + t)
  {
    var s := text + (d + rest);
    FirstOccurrence(d, text, rest);
    if Occurs(d, text) {
      var e := Find(d, text).value;
      CutsOfAppend(text, d, rest, e);
      CutStep(d, s, e, text[..e], s[e + |d|..]);
    } else {
      CutsOfAppend(text, d, rest, |text|);
      CutStep(d, s, |text|, text, rest);
    }
  }

  lemma SplitCons(text: bytes, texts: seq<bytes>)
    ensures SplitParts([text] + texts) == [SplitPart(text)] + SplitParts(texts)
  {
    assert ([text] + texts)[1..] == texts;
  }

  function ReadAfter(d: bytes, s: bytes): Option<seq<ReadPart>>
    requires d != []
  {
    match CutParts(d, s)
    case None => None
    case Some(texts) => Some(SplitParts(texts))
  }

  /** Reading from the delimiter of a part: the part as written and the rest, or something else in its place. */
  lemma {:induction false} ReadFirstPart(b: bytes, p: RawPart, rest: bytes)
    requires CR !in b
    ensures var r := ReadAfter(Delimiter(b), PartText(p) + (Delimiter(b) + rest));
            if Readable(b, p) then
              r == (match ReadAfter(Delimiter(b), rest) case None => None case Some(t) => Some([AsRead(p)] + t))
            else
              r.Some? ==> r.value != [] && r.value[0] != AsRead(p)
                          && (NoBlankLine(p.block) ==> r.value[0].value != Some(p.value))
  {
    var d, text := Delimiter(b), PartText(p);
    DelimiterShape(b);
    PartTextStart(p, d + rest);
    CutFirst(d, text, rest);
    BoundaryLineInPart(b, p);
    SplitWhole(p);
    var cut := CutParts(d, text + (d + rest));
    if Occurs(d, text) {
      SplitCut(p, Find(d, text).value);
    } else if CutParts(d, rest).Some? {
      SplitCons(text, CutParts(d, rest).value);
    }
  }

  lemma {:induction false} ReadAllParts(b: bytes, ps: seq<RawPart>)
    requires CR !in b
    ensures ReadAfter(Delimiter(b), AfterDelimiter(b, ps)) == Some(AllAsRead(ps)) <==> AllReadable(b, ps)
  {
    if ps != [] {
      ReadAllParts(b, ps[1..]);
      ReadFirstPart(b, ps[0], AfterDelimiter(b, ps[1..]));
      assert AllAsRead(ps)[0] == AsRead(ps[0]) && AllAsRead(ps)[1..] == AllAsRead(ps[1..]);
    }
  }

  /** Where no block holds a blank line, reading every value back is enough for everything to have been readable. */
  lemma {:induction false} ValuesReadBack(b: bytes, ps: seq<RawPart>, r: seq<ReadPart>)
    requires CR !in b && forall i :: 0 <= i < |ps| ==> NoBlankLine(ps[i].block)
    requires ReadAfter(Delimiter(b), AfterDelimiter(b, ps)) == Some(r)
    requires |r| == |ps| && forall i :: 0 <= i < |ps| ==> r[i].value == Some(ps[i].value)
    ensures AllReadable(b, ps)
  {
    if ps != [] {
      ReadFirstPart(b, ps[0], AfterDelimiter(b, ps[1..]));
      assert r[0].value == Some(ps[0].value);
      ValuesReadBack(b, ps[1..], r[1..]);
    }
  }

  /**
    A written body is read back part by part, in order, exactly when no block holds a blank line and no line of a
    block or a value starts with the boundary.
  */
  lemma {:induction false} MultipartRoundTrip(b: bytes, ps: seq<RawPart>)
    requires CR !in b && ps != []
    ensures ReadMultipart(b, BodyBytes(b, ps)) == Some(AllAsRead(ps)) <==> AllReadable(b, ps)
  {
    ReadFromStart(b, ps);
    ReadAllParts(b, ps);
  }

  lemma {:induction false} ReadFromStart(b: bytes, ps: seq<RawPart>)
    requires ps != []
    ensures ReadMultipart(b, BodyBytes(b, ps)) == ReadAfter(Delimiter(b), AfterDelimiter(b, ps))
  {
    PartsRegroup(b, ps);
    DelimiterAtStart(Delimiter(b), AfterDelimiter(b, ps));
  }

  lemma DelimiterAtStart(d: bytes, after: bytes)
    ensures Find(d, d + after) == Some(0) && (d + after)[|d|..] == after
  {
    assert At(d, d + after, 0);
  }

  // ----- bodies that break off -----

  function AfterDelimiterCut(b: bytes, ps: seq<RawPart>, last: RawPart): bytes {
    if ps == [] then PartText(last)
    else PartText(ps[0]) + (Delimiter(b) + AfterDelimiterCut(b, ps[1..], last))
  }

  lemma {:induction false} BrokenOffRegroup(b: bytes, ps: seq<RawPart>, last: RawPart)
    ensures CRLF + BrokenOff(b, ps, last) == Delimiter(b) + AfterDelimiterCut(b, ps, last)
  {
    if ps == [] {
      assert BrokenOff(b, ps, last) == CutOffPart(b, last);
      assert CRLF + CutOffPart(b, last) == Delimiter(b) + PartText(last);
    } else {
      BrokenOffRegroup(b, ps[1..], last);
      OnePartRegroup(b, ps[0], BrokenOff(b, ps[1..], last));
      Regroup(PartBytes(b, ps[0]), PartsBytes(b, ps[1..]), CutOffPart(b, last));
    }
  }

  lemma {:induction false} ReadCutOff(b: bytes, ps: seq<RawPart>, last: RawPart)
    requires CR !in b && AllReadable(b, ps) && Readable(b, last)
    ensures ReadAfter(Delimiter(b), AfterDelimiterCut(b, ps, last)) == None
  {
    if ps == [] {
      BoundaryLineInPart(b, last);
      var text := PartText(last);
      assert text[0] == CR && SkipPadding(text) == text;
    } else {
      ReadCutOff(b, ps[1..], last);
      ReadFirstPart(b, ps[0], AfterDelimiterCut(b, ps[1..], last));
    }
  }

  /** A body that broke off is never taken for a complete one. */
  lemma {:induction false} BrokenOffUnread(b: bytes, ps: seq<RawPart>, last: RawPart)
    requires CR !in b && AllReadable(b, ps) && Readable(b, last)
    ensures ReadMultipart(b, BrokenOff(b, ps, last)) == None
  {
    BrokenOffRegroup(b, ps, last);
    DelimiterAtStart(Delimiter(b), AfterDelimiterCut(b, ps, last));
    ReadCutOff(b, ps, last);
  }
}
