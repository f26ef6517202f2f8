/** The percent-encoding sets and encoder of `cyper/src/multipart.rs`, with the decoder that inverts them. */
module PercentEncoding {
  import opened Prelude

  datatype Encoding = PathSegment | AttrChar | NoOp

  predicate IsAlphanumeric(b: byte) {
    '0' <= b <= '9' || 'A' <= b <= 'Z' || 'a' <= b <= 'z'
  }

  /** ASCII control characters. */
  predicate InControls(b: byte) {
    b as int < 32 || b as int == 127
  }

  predicate InFragmentSet(b: byte) {
    InControls(b) || b in {' ', '"', '<', '>', '`'}
  }

  predicate InPathSet(b: byte) {
    InFragmentSet(b) || b in {'#', '?', '{', '}'}
  }

  predicate InPathSegmentSet(b: byte) {
    InPathSet(b) || b in {'/', '%'}
  }

  /** Everything but the attr-char of section 3.2.1 of RFC 8187. */
  predicate InAttrCharSet(b: byte) {
    !IsAlphanumeric(b) && b !in {'!', '#', '$', '&', '+', '-', '.', '^', '_', '`', '|', '~'}
  }

  /** Bytes outside ASCII are always encoded, whatever the set; no byte is under `NoOp`. */
  predicate MustEncode(e: Encoding, b: byte) {
    match e
    case PathSegment => b as int >= 128 || InPathSegmentSet(b)
    case AttrChar => b as int >= 128 || InAttrCharSet(b)
    case NoOp => false
  }

  predicate NothingToEncode(e: Encoding, s: bytes) {
    forall i :: 0 <= i < |s| ==> !MustEncode(e, s[i])
  }

  function HexUpper(n: nat): (c: byte)
    requires n < 16
    ensures HexValue(c) == Some(n)
  {
    if n < 10 then '0' + n as char else 'A' + (n - 10) as char
  }

  function HexLower(n: nat): (c: byte)
    requires n < 16
    ensures HexValue(c) == Some(n)
    ensures '0' <= c <= '9' || 'a' <= c <= 'f'
  {
    if n < 10 then '0' + n as char else 'a' + (n - 10) as char
  }

  function HexValue(c: char): Option<nat> {
    if '0' <= c <= '9' then Some((c - '0') as nat)
    else if 'A' <= c <= 'F' then Some((c - 'A') as nat + 10)
    else if 'a' <= c <= 'f' then Some((c - 'a') as nat + 10)
    else None
  }

  function PercentByte(b: byte): bytes {
    ['%', HexUpper(b as int / 16), HexUpper(b as int % 16)]
  }

  /** The encoded text, byte by byte. */
  function Encode(e: Encoding, s: bytes): bytes {
    if s == [] then []
    else (if MustEncode(e, s[0]) then PercentByte(s[0]) else [s[0]]) + Encode(e, s[1..])
  }

  /** The pieces the encoder's iterator yields: one encoded byte, or a maximal run of bytes left alone. */
  function Chunks(e: Encoding, s: bytes): seq<bytes>
    decreases |s|
  {
    if s == [] then []
    else if MustEncode(e, s[0]) then [PercentByte(s[0])] + Chunks(e, s[1..])
    else var k := RunLength(e, s); [s[..k]] + Chunks(e, s[k..])
  }

  function RunLength(e: Encoding, s: bytes): (k: nat)
    ensures k <= |s|
    ensures NothingToEncode(e, s[..k])
    ensures k < |s| ==> MustEncode(e, s[k])
    ensures s != [] && !MustEncode(e, s[0]) ==> k > 0
  {
    if s == [] || MustEncode(e, s[0]) then 0 else 1 + RunLength(e, s[1..])
  }

  /** Whether the encoder could hand back a single piece, or had to assemble a new string. */
  datatype Cow = Borrowed(text: bytes) | Owned(text: bytes)

  function PercentEncode(e: Encoding, s: bytes): Cow {
    if e == NoOp then Borrowed(s)
    else
      var chunks := Chunks(e, s);
      if |chunks| == 0 then Borrowed([])
      else if |chunks| == 1 then Borrowed(chunks[0])
      else Owned(Flatten(chunks))
  }

  lemma {:induction false} EncodeAppend(e: Encoding, a: bytes, b: bytes)
    ensures Encode(e, a + b) == Encode(e, a) + Encode(e, b)
  {
    if a == [] {
      assert a + b == b;
    } else {
      EncodeAppend(e, a[1..], b);
      TailOfAppend(a, b);
      Regroup(if MustEncode(e, a[0]) then PercentByte(a[0]) else [a[0]], Encode(e, a[1..]), Encode(e, b));
    }
  }

  lemma {:induction false} EncodeIdentity(e: Encoding, s: bytes)
    requires NothingToEncode(e, s)
    ensures Encode(e, s) == s
  {
    if s != [] {
      EncodeIdentity(e, s[1..]);
    }
  }

  /** The pieces assemble to the byte-by-byte encoding. */
  lemma {:induction false} ChunksFlatten(e: Encoding, s: bytes)
    ensures Flatten(Chunks(e, s)) == Encode(e, s)
    decreases |s|
  {
    if s == [] {
    } else if MustEncode(e, s[0]) {
      ChunksFlatten(e, s[1..]);
      FlattenCons(PercentByte(s[0]), Chunks(e, s[1..]));
    } else {
      var k := RunLength(e, s);
      ChunksFlatten(e, s[k..]);
      FlattenCons(s[..k], Chunks(e, s[k..]));
      EncodeIdentity(e, s[..k]);
      EncodeAppend(e, s[..k], s[k..]);
      assert s[..k] + s[k..] == s;
    }
  }

  /** The result is borrowed when nothing is encoded, and also when the whole text is one encoded byte. */
  lemma {:induction false} BorrowedIff(e: Encoding, s: bytes)
    ensures PercentEncode(e, s).text == Encode(e, s)
    ensures PercentEncode(e, s).Borrowed? <==> NothingToEncode(e, s) || |s| == 1
  {
    if e == NoOp {
      EncodeIdentity(e, s);
    } else {
      ChunksFlatten(e, s);
      var chunks := Chunks(e, s);
      if |chunks| == 1 {
        assert chunks[1..] == [];
        assert Flatten(chunks) == chunks[0] + Flatten([]);
      }
      if s != [] && !MustEncode(e, s[0]) {
        var k := RunLength(e, s);
        if NothingToEncode(e, s) {
          assert k == |s|;
        }
        if k == |s| {
          assert s[..k] == s;
        }
      } else if s != [] && |s| != 1 {
        assert MustEncode(e, s[0]);
        assert |Chunks(e, s[1..])| > 0;
      }
    }
  }

  /** A quotation mark alone is encoded, and still the result is borrowed. */
  lemma EncodedAndBorrowed()
    ensures !NothingToEncode(PathSegment, "\"") && PercentEncode(PathSegment, "\"") == Borrowed("%22")
  {
    assert MustEncode(PathSegment, "\""[0]);
    BorrowedIff(PathSegment, "\"");
    assert Encode(PathSegment, "\""[1..]) == [];
    assert PercentByte('"') == "%22";
  }

  /** What each encoding leaves alone, byte by byte: printable ASCII with ten exceptions, or the attr-char. */
  lemma LeftAlone(b: byte)
    ensures !MustEncode(PathSegment, b) <==>
            '!' <= b <= '~' && b !in {'"', '#', '%', '/', '<', '>', '?', '`', '{', '}'}
    ensures !MustEncode(AttrChar, b) <==>
            || '0' <= b <= '9' || 'A' <= b <= 'Z' || 'a' <= b <= 'z'
            || b in {'!', '#', '$', '&', '+', '-', '.', '^', '_', '`', '|', '~'}
    ensures !MustEncode(NoOp, b)
  {
  }

  /** A byte that is encoded becomes `%` and its two digits, the letters among them in upper case. */
  lemma EncodedByte(e: Encoding, b: byte)
    ensures Encode(e, [b]) ==
            if MustEncode(e, b) then ['%', "0123456789ABCDEF"[b as int / 16], "0123456789ABCDEF"[b as int % 16]] else [b]
  {
    UpperDigit(b as int / 16);
    UpperDigit(b as int % 16);
    assert Encode(e, [b][1..]) == [];
  }

  lemma UpperDigit(n: nat)
    requires n < 16
    ensures HexUpper(n) == "0123456789ABCDEF"[n]
  {
  }

  predicate IsAscii(s: bytes) {
    forall i :: 0 <= i < |s| ==> s[i] as int < 128
  }

  /** What is encoded is ASCII, whatever the text. */
  lemma {:induction false} EncodedIsAscii(e: Encoding, s: bytes)
    requires e != NoOp
    ensures IsAscii(Encode(e, s))
  {
    if s != [] {
      EncodedIsAscii(e, s[1..]);
      LeftAlone(s[0]);
      HexNotEncoded(e, s[0] as int / 16);
      HexNotEncoded(e, s[0] as int % 16);
    }
  }

  /** Only `%` and bytes outside the encode set appear in encoded text. */
  lemma {:induction false} EncodedAlphabet(e: Encoding, s: bytes)
    ensures forall i :: 0 <= i < |Encode(e, s)| ==> Encode(e, s)[i] == '%' || !MustEncode(e, Encode(e, s)[i])
  {
    if s != [] {
      EncodedAlphabet(e, s[1..]);
      if MustEncode(e, s[0]) {
        HexNotEncoded(e, s[0] as int / 16);
        HexNotEncoded(e, s[0] as int % 16);
      }
    }
  }

  lemma HexNotEncoded(e: Encoding, n: nat)
    requires n < 16
    ensures !MustEncode(e, HexUpper(n)) && IsAlphanumeric(HexUpper(n))
  {
    assert '0' <= HexUpper(n) <= '9' || 'A' <= HexUpper(n) <= 'F';
  }

  /** A byte other than `%` and the hex digits is in the encoded text exactly when it is in the text, unencoded. */
  lemma {:induction false} EncodedMember(e: Encoding, s: bytes, c: byte)
    requires c != '%' && !IsAlphanumeric(c)
    ensures c in Encode(e, s) <==> c in s && !MustEncode(e, c)
  {
    if s != [] {
      EncodedMember(e, s[1..], c);
      HexNotEncoded(e, s[0] as int / 16);
      HexNotEncoded(e, s[0] as int % 16);
      assert s == [s[0]] + s[1..];
      assert c in s <==> c == s[0] || c in s[1..];
    }
  }

  /** The usual reader: `%` and two hex digits stand for a byte, everything else for itself. */
  function PercentDecode(s: bytes): bytes {
    if s == [] then []
    else if s[0] == '%' && |s| >= 3 && HexValue(s[1]).Some? && HexValue(s[2]).Some? then
      [DecodedByte(HexValue(s[1]).value, HexValue(s[2]).value)] + PercentDecode(s[3..])
    else [s[0]] + PercentDecode(s[1..])
  }

  function DecodedByte(hi: nat, lo: nat): byte {
    if hi < 16 && lo < 16 then (16 * hi + lo) as char else '%'
  }

  /** Decoding inverts encoding, because `%` itself is in both sets. */
  lemma {:induction false} DecodeEncode(e: Encoding, s: bytes)
    requires e != NoOp
    ensures PercentDecode(Encode(e, s)) == s
  {
    if s != [] {
      DecodeEncode(e, s[1..]);
      var t := Encode(e, s[1..]);
      if MustEncode(e, s[0]) {
        assert (PercentByte(s[0]) + t)[3..] == t;
        assert DecodedByte(s[0] as int / 16, s[0] as int % 16) == s[0];
      } else {
        assert s[0] != '%';
        assert ([s[0]] + t)[1..] == t;
      }
      assert [s[0]] + s[1..] == s;
    }
  }

  /** Decoding leaves every character other than `%` and the hex digits in place. */
  lemma {:induction false} DecodeKeeps(s: bytes, c: byte)
    requires c != '%' && c in s && !HexValue(c).Some?
    ensures c in PercentDecode(s)
  {
    assert s == [s[0]] + s[1..];
    if s[0] == '%' && |s| >= 3 && HexValue(s[1]).Some? && HexValue(s[2]).Some? {
      assert s == [s[0], s[1], s[2]] + s[3..];
      DecodeKeeps(s[3..], c);
    } else if c in s[1..] {
      DecodeKeeps(s[1..], c);
    }
  }

  lemma {:induction false} DecodeShrinks(s: bytes)
    ensures |PercentDecode(s)| <= |s|
  {
    if s == [] {
    } else if s[0] == '%' && |s| >= 3 && HexValue(s[1]).Some? && HexValue(s[2]).Some? {
      DecodeShrinks(s[3..]);
    } else {
      DecodeShrinks(s[1..]);
    }
  }
}
