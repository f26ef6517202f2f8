/** The string operations the Alt-Svc parser is made of: splitting, trimming and decimal numbers. */
module Text {
  import opened Prelude

  /** Unicode white space. */
  predicate IsWhitespace(c: char) {
    || '\t' <= c <= '\r'
    || c == ' '
    || (c as int) in {0x85, 0xA0, 0x1680, 0x2028, 0x2029, 0x202F, 0x205F, 0x3000}
    || 0x2000 <= c as int <= 0x200A
  }

  function TrimStart(s: string, drop: char -> bool): (r: string)
    ensures |r| <= |s| && r == s[|s| - |r|..]
    ensures r != [] ==> !drop(r[0])
  {
    if s != [] && drop(s[0]) then TrimStart(s[1..], drop) else s
  }

  function TrimEnd(s: string, drop: char -> bool): (r: string)
    ensures r <= s
    ensures r != [] ==> !drop(r[|r| - 1])
  {
    if s != [] && drop(s[|s| - 1]) then TrimEnd(s[..|s| - 1], drop) else s
  }

  function TrimMatches(s: string, drop: char -> bool): (r: string)
    ensures forall c :: c in r ==> c in s
    ensures r != [] ==> !drop(r[0])
  {
    TrimEnd(TrimStart(s, drop), drop)
  }

  function Trim(s: string): (r: string)
    ensures forall c :: c in r ==> c in s
    ensures r != [] ==> !IsWhitespace(r[0])
  {
    TrimMatches(s, IsWhitespace)
  }

  /** Trims the given padding off a text whose ends are not padding. */
  lemma {:induction false} TrimPadded(pad: string, s: string, post: string, drop: char -> bool)
    requires s != [] && !drop(s[0]) && !drop(s[|s| - 1])
    requires forall c :: c in pad || c in post ==> drop(c)
    ensures TrimMatches(pad + s + post, drop) == s
  {
    TrimStartPadded(pad, s + post, drop);
    assert pad + s + post == pad + (s + post);
    TrimEndPadded(s, post, drop);
  }

  lemma {:induction false} TrimStartPadded(pad: string, s: string, drop: char -> bool)
    requires s != [] && !drop(s[0])
    requires forall c :: c in pad ==> drop(c)
    ensures TrimStart(pad + s, drop) == s
  {
    if pad == [] {
      assert pad + s == s;
    } else {
      assert (pad + s)[1..] == pad[1..] + s;
      assert drop(pad[0]);
      TrimStartPadded(pad[1..], s, drop);
    }
  }

  lemma {:induction false} TrimEndPadded(s: string, post: string, drop: char -> bool)
    requires s != [] && !drop(s[|s| - 1])
    requires forall c :: c in post ==> drop(c)
    ensures TrimEnd(s + post, drop) == s
  {
    if post == [] {
      assert s + post == s;
    } else {
      var n := |post| - 1;
      assert (s + post)[..|s| + n] == s + post[..n];
      assert drop(post[n]);
      TrimEndPadded(s, post[..n], drop);
    }
  }

  /** The text without what is dropped at its two ends. */
  ghost predicate IsCore(s: string, core: string, drop: char -> bool) {
    exists a, b :: 0 <= a <= b <= |s| && core == s[a..b]
      && (forall i :: 0 <= i < a || b <= i < |s| ==> drop(s[i]))
      && (a < b ==> !drop(s[a]) && !drop(s[b - 1]))
  }

  lemma {:induction false} TrimStartIs(s: string, drop: char -> bool)
    ensures forall i :: 0 <= i < |s| - |TrimStart(s, drop)| ==> drop(s[i])
  {
    if s != [] && drop(s[0]) {
      TrimStartIs(s[1..], drop);
      forall i | 0 <= i < |s| - |TrimStart(s, drop)| ensures drop(s[i]) {
        assert i > 0 ==> s[i] == s[1..][i - 1];
      }
    }
  }

  lemma {:induction false} TrimEndIs(s: string, drop: char -> bool)
    ensures forall i :: |TrimEnd(s, drop)| <= i < |s| ==> drop(s[i])
  {
    if s != [] && drop(s[|s| - 1]) {
      TrimEndIs(s[..|s| - 1], drop);
      assert forall i :: 0 <= i < |s| - 1 ==> s[..|s| - 1][i] == s[i];
    }
  }

  lemma SliceOfSlice(s: string, a: nat, n: nat)
    requires a + n <= |s|
    ensures s[a..][..n] == s[a..a + n]
    ensures forall i :: a <= i < |s| ==> s[i] == s[a..][i - a]
  {
  }

  lemma TrimMatchesIs(s: string, drop: char -> bool)
    ensures IsCore(s, TrimMatches(s, drop), drop)
  {
    hide TrimStart, TrimEnd;
    var t := TrimStart(s, drop);
    var r := TrimEnd(t, drop);
    TrimStartIs(s, drop);
    TrimEndIs(t, drop);
    var a := |s| - |t|;
    assert r == t[..|r|];
    SliceOfSlice(s, a, |r|);
    CoreIs(s, a, a + |r|, drop);
  }

  lemma CoreIs(s: string, a: nat, b: nat, drop: char -> bool)
    requires a <= b <= |s|
    requires forall i :: 0 <= i < a || b <= i < |s| ==> drop(s[i])
    requires a < b ==> !drop(s[a]) && !drop(s[b - 1])
    ensures IsCore(s, s[a..b], drop)
  {
  }

  /** White space as Unicode lists it. */
  lemma WhitespaceIs(c: char)
    ensures IsWhitespace(c) <==>
            c as int in {9, 10, 11, 12, 13, 32, 0x85, 0xA0, 0x1680, 0x2000, 0x2001, 0x2002, 0x2003, 0x2004, 0x2005, 0x2006,
                         0x2007, 0x2008, 0x2009, 0x200A, 0x2028, 0x2029, 0x202F, 0x205F, 0x3000}
  {
  }

  lemma TrimIs(s: string)
    ensures IsCore(s, Trim(s), IsWhitespace)
  {
    TrimMatchesIs(s, IsWhitespace);
  }

  // ----- splitting -----

  /** The pieces between separators; a text without any is a single piece. */
  function Split(s: string, sep: char): (r: seq<string>)
    ensures r != []
  {
    if s == [] then [[]]
    else
      var rest := Split(s[1..], sep);
      if s[0] == sep then [[]] + rest else [[s[0]] + rest[0]] + rest[1..]
  }

  lemma {:induction false} SplitPieces(s: string, sep: char)
    ensures forall i, c :: 0 <= i < |Split(s, sep)| && c in Split(s, sep)[i] ==> c in s && c != sep
  {
    if s != [] {
      SplitPieces(s[1..], sep);
      var rest := Split(s[1..], sep);
      var r := Split(s, sep);
      forall i, c | 0 <= i < |r| && c in r[i] ensures c in s && c != sep {
        if i == 0 && s[0] != sep {
          assert r[0] == [s[0]] + rest[0];
          if c in rest[0] {
            assert c in s[1..];
          } else {
            assert c == s[0];
          }
        } else {
          assert r[i] == if s[0] == sep then rest[i - 1] else rest[i];
          assert c in s[1..];
        }
      }
    }
  }

  lemma PiecesAvoid(s: string, sep: char)
    ensures forall i :: 0 <= i < |Split(s, sep)| ==> sep !in Split(s, sep)[i]
  {
    SplitPieces(s, sep);
  }

  lemma {:induction false} SplitWithout(s: string, sep: char)
    requires sep !in s
    ensures Split(s, sep) == [s]
  {
    if s != [] {
      SplitWithout(s[1..], sep);
      assert [s[0]] + s[1..] == s;
    }
  }

  lemma {:induction false} SplitAtFirst(a: string, b: string, sep: char)
    requires sep !in a
    ensures Split(a + ([sep] + b), sep) == [a] + Split(b, sep)
  {
    if a == [] {
      assert a + ([sep] + b) == [sep] + b;
      assert ([sep] + b)[1..] == b;
    } else {
      SplitAtFirst(a[1..], b, sep);
      var s := a + ([sep] + b);
      assert s[0] == a[0] && s[1..] == a[1..] + ([sep] + b);
      assert ([a[1..]] + Split(b, sep))[1..] == Split(b, sep);
      assert [a[0]] + a[1..] == a;
    }
  }

  /** The first piece starts with the first character, unless that is the separator. */
  lemma FirstPiece(s: string, sep: char)
    ensures Split(s, sep)[0] != [] ==> s != [] && Split(s, sep)[0][0] == s[0]
  {
  }

  function Joined(pieces: seq<string>, sep: char): string {
    if pieces == [] then []
    else if |pieces| == 1 then pieces[0]
    else pieces[0] + ([sep] + Joined(pieces[1..], sep))
  }

  /** The pieces are those of which none holds a separator and which separators join to the text. */
  lemma {:induction false} SplitJoins(s: string, sep: char)
    ensures Joined(Split(s, sep), sep) == s
  {
    if s != [] {
      SplitJoins(s[1..], sep);
      var rest := Split(s[1..], sep);
      var r := Split(s, sep);
      if s[0] == sep {
        assert r[1..] == rest;
      } else {
        assert r[1..] == rest[1..];
      }
      assert [s[0]] + s[1..] == s;
    }
  }

  /** The text is two others with a separator between them, and has no further separator. */
  predicate IsPair(s: string, sep: char, a: string, b: string) {
    s == a + ([sep] + b) && sep !in a && sep !in b
  }

  lemma SplitPair(a: string, b: string, sep: char)
    requires sep !in a && sep !in b
    ensures Split(a + ([sep] + b), sep) == [a, b]
  {
    SplitAtFirst(a, b, sep);
    SplitWithout(b, sep);
    assert [a] + [b] == [a, b];
  }

  lemma SplitOfPair(s: string, sep: char)
    ensures forall a, b :: IsPair(s, sep, a, b) ==> Split(s, sep) == [a, b]
    ensures |Split(s, sep)| == 2 <==> exists a, b :: IsPair(s, sep, a, b)
  {
    forall a, b | IsPair(s, sep, a, b) ensures Split(s, sep) == [a, b] {
      SplitPair(a, b, sep);
    }
    var r := Split(s, sep);
    if |r| == 2 {
      SplitJoins(s, sep);
      PiecesAvoid(s, sep);
      assert r[1..] == [r[1]];
      assert IsPair(s, sep, r[0], r[1]);
    }
  }

  // ----- decimal numbers -----

  predicate IsDigit(c: char) {
    '0' <= c <= '9'
  }

  predicate AllDigits(s: string) {
    forall i :: 0 <= i < |s| ==> IsDigit(s[i])
  }

  function DecimalValue(s: string): nat
    requires AllDigits(s)
  {
    if s == [] then 0 else 10 * DecimalValue(s[..|s| - 1]) + (s[|s| - 1] - '0') as nat
  }

  function Decimal(n: nat): (s: string)
    ensures s != [] && AllDigits(s)
  {
    var digit := '0' + (n % 10) as char;
    if n < 10 then [digit] else Decimal(n / 10) + [digit]
  }

  lemma {:induction false} DecimalRoundTrip(n: nat)
    ensures DecimalValue(Decimal(n)) == n
  {
    var s := Decimal(n);
    if n < 10 {
      assert s[..|s| - 1] == [];
    } else {
      DecimalRoundTrip(n / 10);
      assert s[..|s| - 1] == Decimal(n / 10);
    }
  }

  /** `str::parse` for an unsigned integer type with the given number of values: an optional plus sign, then digits. */
  function ParseUnsigned(s: string, limit: nat): Option<nat> {
    var digits := if |s| > 1 && s[0] == '+' then s[1..] else s;
    if digits == [] || !AllDigits(digits) || DecimalValue(digits) >= limit then None
    else Some(DecimalValue(digits))
  }

  const I32_LIMIT: nat := 0x8000_0000

  /** `str::parse::<i32>`. */
  function ParseI32(s: string): Option<int> {
    if |s| > 1 && s[0] == '-' then
      if !AllDigits(s[1..]) || DecimalValue(s[1..]) > I32_LIMIT then None
      else
        var n: int := -(DecimalValue(s[1..]) as int);
        Some(n)
    else
      match ParseUnsigned(s, I32_LIMIT)
      case None => None
      case Some(n) => Some(n as int)
  }

  lemma ParsePrinted(n: nat, limit: nat)
    requires n < limit
    ensures ParseUnsigned(Decimal(n), limit) == Some(n)
  {
    DecimalRoundTrip(n);
    assert IsDigit(Decimal(n)[0]);
  }

  lemma {:induction false} LeadingZero(s: string)
    requires AllDigits(s)
    ensures AllDigits("0" + s) && DecimalValue("0" + s) == DecimalValue(s)
  {
    var t := "0" + s;
    if s == [] {
      assert t[..|t| - 1] == [];
    } else {
      LeadingZero(s[..|s| - 1]);
      assert t[..|t| - 1] == "0" + s[..|s| - 1];
    }
  }

  /** The text is a number in decimal digits, with a plus sign or none. */
  predicate Spells(s: string, n: nat) {
    || (s != [] && AllDigits(s) && DecimalValue(s) == n)
    || (|s| > 1 && s[0] == '+' && AllDigits(s[1..]) && DecimalValue(s[1..]) == n)
  }

  /** With a sign of either kind or none. */
  predicate SpellsSigned(s: string, n: int) {
    || (n >= 0 && Spells(s, n))
    || (|s| > 1 && s[0] == '-' && AllDigits(s[1..]) && n == -(DecimalValue(s[1..]) as int))
  }

  lemma ParseUnsignedIs(s: string, limit: nat, n: nat)
    ensures ParseUnsigned(s, limit) == Some(n) <==> Spells(s, n) && n < limit
  {
    assert s != [] && AllDigits(s) ==> IsDigit(s[0]);
  }

  lemma ParseI32Is(s: string, n: int)
    ensures ParseI32(s) == Some(n) <==> SpellsSigned(s, n) && -0x8000_0000 <= n < 0x8000_0000
  {
    assert s != [] && AllDigits(s) ==> IsDigit(s[0]);
    if n >= 0 {
      ParseUnsignedIs(s, I32_LIMIT, n);
    }
  }
}
