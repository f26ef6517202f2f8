/** Small vocabulary shared by every module: optional values, bytes, and the search for a pattern in a text. */
module Prelude {

  datatype Option<+T> = None | Some(value: T) {
    predicate IsFailure() { None? }

    function PropagateFailure<U>(): Option<U>
      requires None?
    {
      None
    }

    function Extract(): T
      requires Some?
    {
      value
    }
  }

  /** A byte, written as the character with that code, so that ASCII literals can be used for wire text. */
  type byte = c: char | c as int < 256

  type bytes = seq<byte>

  const CR: byte := '\r'
  const LF: byte := '\n'
  const CRLF: bytes := "\r\n"
  const U64: int := 0x1_0000_0000_0000_0000

  type u64 = n: int | 0 <= n < U64

  function Min(a: nat, b: nat): nat {
    if a <= b then a else b
  }

  /** The concatenation of a sequence of chunks. */
  function Flatten(chunks: seq<bytes>): bytes {
    if chunks == [] then [] else chunks[0] + Flatten(chunks[1..])
  }

  lemma FlattenCons(c: bytes, rest: seq<bytes>)
    ensures Flatten([c] + rest) == c + Flatten(rest)
  {
    assert ([c] + rest)[1..] == rest;
  }

  lemma {:induction false} FlattenAppend(a: seq<bytes>, b: seq<bytes>)
    ensures Flatten(a + b) == Flatten(a) + Flatten(b)
  {
    if a == [] {
      assert a + b == b;
    } else {
      FlattenAppend(a[1..], b);
      assert a + b == [a[0]] + (a[1..] + b);
      FlattenCons(a[0], a[1..] + b);
      Regroup(a[0], Flatten(a[1..]), Flatten(b));
    }
  }

  lemma FlattenSnoc(a: seq<bytes>, c: bytes)
    ensures Flatten(a + [c]) == Flatten(a) + c
  {
    FlattenAppend(a, [c]);
  }

  lemma Regroup(a: bytes, b: bytes, c: bytes)
    ensures a + b + c == a + (b + c)
  {
  }

  lemma TailOfAppend(a: bytes, b: bytes)
    requires a != []
    ensures (a + b)[0] == a[0] && (a + b)[1..] == a[1..] + b
  {
  }

  // ----- searching -----

  /** `pat` stands in `s` at position `i`. */
  predicate At(pat: string, s: string, i: int) {
    0 <= i && i + |pat| <= |s| && s[i..i + |pat|] == pat
  }

  ghost predicate Occurs(pat: string, s: string) {
    exists i :: At(pat, s, i)
  }

  /** The least position not before `i` at which `pat` stands in `s`. */
  function FindFrom(pat: string, s: string, i: nat): (r: Option<nat>)
    ensures r.Some? ==> i <= r.value && At(pat, s, r.value)
    ensures r.Some? ==> forall j :: i <= j < r.value ==> !At(pat, s, j)
    ensures r.None? ==> forall j :: i <= j ==> !At(pat, s, j)
    decreases |s| - i
  {
    if i + |pat| > |s| then None
    else if At(pat, s, i) then Some(i)
    else FindFrom(pat, s, i + 1)
  }

  function Find(pat: string, s: string): (r: Option<nat>)
    ensures r.Some? ==> At(pat, s, r.value)
    ensures r.Some? ==> forall j :: j < r.value ==> !At(pat, s, j)
    ensures r.None? <==> !Occurs(pat, s)
  {
    FindFrom(pat, s, 0)
  }

  lemma FindNotAfter(pat: string, s: string, n: nat)
    requires At(pat, s, n)
    ensures Find(pat, s).Some? && Find(pat, s).value <= n
  {
    assert Occurs(pat, s);
    assert !(n < Find(pat, s).value);
  }

  lemma AtShift(pat: string, a: string, b: string, i: int)
    requires 0 <= i
    ensures At(pat, a + b, |a| + i) <==> At(pat, b, i)
  {
    if i + |pat| <= |b| {
      assert (a + b)[|a| + i..|a| + i + |pat|] == b[i..i + |pat|];
    }
  }

  lemma AtPrefix(pat: string, a: string, b: string, i: int)
    requires i + |pat| <= |a|
    ensures At(pat, a + b, i) <==> At(pat, a, i)
  {
    if 0 <= i {
      assert (a + b)[i..i + |pat|] == a[i..i + |pat|];
    }
  }

  /** A pattern whose first character occurs nowhere else in it. */
  predicate SelfDelimiting(pat: string) {
    |pat| > 0 && pat[0] !in pat[1..]
  }

  /** Such a pattern cannot lie across the start of a text that begins with its first character. */
  lemma NoStraddle(pat: string, a: string, b: string, i: int)
    requires SelfDelimiting(pat)
    requires b != "" && b[0] == pat[0]
    requires At(pat, a + b, i) && i < |a|
    ensures At(pat, a, i)
  {
    assert forall k :: 1 <= k < |pat| ==> pat[k] == pat[1..][k - 1];
    assert forall k :: 0 <= k < |pat| ==> pat[k] == (a + b)[i + k];
    assert (a + b)[i + (|a| - i)] == pat[0];
    AtPrefix(pat, a, b, i);
  }

  /** Occurrences in a text cut before the first character of the pattern are those of the two pieces. */
  lemma OccursSplit(pat: string, a: string, b: string)
    requires SelfDelimiting(pat)
    requires b != "" && b[0] == pat[0]
    ensures Occurs(pat, a + b) <==> Occurs(pat, a) || Occurs(pat, b)
  {
    if i :| At(pat, a + b, i) {
      if i < |a| {
        NoStraddle(pat, a, b, i);
      } else {
        AtShift(pat, a, b, i - |a|);
      }
    }
    if i :| At(pat, a, i) {
      AtPrefix(pat, a, b, i);
      assert At(pat, a + b, i);
    }
    if i :| At(pat, b, i) {
      AtShift(pat, a, b, i);
      assert At(pat, a + b, |a| + i);
    }
  }

  /** The first occurrence in `a + pat + c` is at the end of `a` exactly when `a` holds none. */
  lemma FirstOccurrence(pat: string, a: string, c: string)
    requires SelfDelimiting(pat)
    ensures Find(pat, a + (pat + c)).Some?
    ensures !Occurs(pat, a) ==> Find(pat, a + (pat + c)) == Some(|a|)
    ensures Occurs(pat, a) ==> Find(pat, a + (pat + c)).value < |a| && Find(pat, a + (pat + c)) == Find(pat, a)
  {
    var b := pat + c;
    assert At(pat, b, 0);
    AtShift(pat, a, b, 0);
    var r := Find(pat, a + b).value;
    if r < |a| {
      NoStraddle(pat, a, b, r);
    }
    if Occurs(pat, a) {
      var i := Find(pat, a).value;
      AtPrefix(pat, a, b, i);
      assert !(i < r);
      assert r <= i;
    }
  }
}
