/** Which Alt-Svc field values are accepted, what each accepted one says, and which error every other one is. */
module AltSvcGrammar {
  import opened Prelude
  import opened Text
  import opened AltSvc

  // ----- the parameters of a field value -----

  /** The texts that are not blank, without the white space around them. */
  function Trimmed(texts: seq<string>): seq<string> {
    if texts == [] then []
    else (if Trim(texts[0]) == [] then [] else [Trim(texts[0])]) + Trimmed(texts[1..])
  }

  function ServiceTexts(s: string): seq<string> {
    Trimmed(Split(s, ','))
  }

  function ParamTexts(service: string): seq<string> {
    Trimmed(Split(service, ';'))
  }

  function ParamsOf(services: seq<string>): seq<string> {
    if services == [] then [] else ParamTexts(services[0]) + ParamsOf(services[1..])
  }

  // ----- what one parameter says -----

  predicate IsReserved(key: string) {
    key == "ma" || key == "persist"
  }

  /** `ma=` and a decimal number of 64 bits. */
  ghost predicate SetsAge(p: string, n: nat) {
    exists v :: IsPair(p, '=', "ma", v) && Spells(v, n) && n < 0x1_0000_0000_0000_0000
  }

  /** `persist=` and a signed decimal number of 32 bits. */
  ghost predicate SetsPersist(p: string, n: int) {
    exists v :: IsPair(p, '=', "persist", v) && SpellsSigned(v, n) && -0x8000_0000 <= n < 0x8000_0000
  }

  /** A protocol, then a host, a colon and a decimal number of 16 bits, in quotes or not. */
  ghost predicate Names(p: string, id: string, host: string, port: nat) {
    exists v, q ::
      IsPair(p, '=', id, v) && !IsReserved(id) && IsPair(TrimQuotes(v), ':', host, q) && Spells(q, port) && port < 0x1_0000
  }

  ghost predicate AnyAge(p: string) {
    exists n :: SetsAge(p, n)
  }

  ghost predicate AnyPersist(p: string) {
    exists n :: SetsPersist(p, n)
  }

  ghost predicate AnyName(p: string) {
    exists id, host, port :: Names(p, id, host, port)
  }

  ghost predicate WellFormed(p: string) {
    AnyAge(p) || AnyPersist(p) || AnyName(p)
  }

  ghost predicate HasPair(s: string, sep: char) {
    exists a, b :: IsPair(s, sep, a, b)
  }

  ghost predicate Below(s: string, limit: nat) {
    exists n: nat :: Spells(s, n) && n < limit
  }

  ghost predicate FitsI32(s: string) {
    exists n :: SpellsSigned(s, n) && -0x8000_0000 <= n < 0x8000_0000
  }

  /** What is wrong with a parameter. */
  ghost predicate Fault(p: string, e: ParseError) {
    match e
    case Parameter(text) => text == p && !HasPair(p, '=')
    case MaValue(v) => IsPair(p, '=', "ma", v) && !Below(v, 0x1_0000_0000_0000_0000)
    case PersistValue(v) => IsPair(p, '=', "persist", v) && !FitsI32(v)
    case AltAuthorityValue(text) =>
      exists id, v :: IsPair(p, '=', id, v) && !IsReserved(id) && text == TrimQuotes(v) && !HasPair(text, ':')
    case PortNumber(q) =>
      exists id, v, host ::
        IsPair(p, '=', id, v) && !IsReserved(id) && IsPair(TrimQuotes(v), ':', host, q) && !Below(q, 0x1_0000)
  }

  /** Exactly the quotes at both ends of a value are dropped. */
  lemma TrimQuotesIs(v: string)
    ensures IsCore(v, TrimQuotes(v), c => c == '"')
  {
    TrimMatchesIs(v, c => c == '"');
  }

  lemma UnsignedBelow(s: string, limit: nat)
    ensures ParseUnsigned(s, limit).Some? <==> Below(s, limit)
    ensures forall n: nat :: ParseUnsigned(s, limit) == Some(n) <==> Spells(s, n) && n < limit
  {
    hide ParseUnsigned, Spells;
    forall n: nat ensures ParseUnsigned(s, limit) == Some(n) <==> Spells(s, n) && n < limit {
      ParseUnsignedIs(s, limit, n);
    }
    if ParseUnsigned(s, limit).Some? {
      assert Spells(s, ParseUnsigned(s, limit).value);
    }
  }

  lemma SignedFits(s: string)
    ensures ParseI32(s).Some? <==> FitsI32(s)
    ensures forall n :: ParseI32(s) == Some(n) <==> SpellsSigned(s, n) && -0x8000_0000 <= n < 0x8000_0000
  {
    hide ParseI32, SpellsSigned;
    forall n: int ensures ParseI32(s) == Some(n) <==> SpellsSigned(s, n) && -0x8000_0000 <= n < 0x8000_0000 {
      ParseI32Is(s, n);
    }
    if ParseI32(s).Some? {
      assert SpellsSigned(s, ParseI32(s).value);
    }
  }

  lemma PairIsOne(s: string, sep: char, a: string, b: string)
    requires IsPair(s, sep, a, b)
    ensures HasPair(s, sep) && forall a', b' :: IsPair(s, sep, a', b') ==> a' == a && b' == b
  {
    SplitOfPair(s, sep);
    assert Split(s, sep) == [a, b];
  }

  // ----- one parameter, by its form -----

  lemma NoPairFaults(svc: Service, p: string, e: ParseError)
    requires !HasPair(p, '=')
    ensures ApplyParam(svc, p) == Err(Parameter(p)) && !WellFormed(p)
    ensures Fault(p, e) <==> e == Parameter(p)
  {
    hide TrimQuotes, Spells, SpellsSigned;
    SplitOfPair(p, '=');
  }

  lemma AgeFaults(svc: Service, p: string, v: string, e: ParseError)
    requires IsPair(p, '=', "ma", v)
    ensures WellFormed(p) <==> Below(v, U64)
    ensures Fault(p, e) <==> e == MaValue(v) && !Below(v, U64)
    ensures match ApplyParam(svc, p)
            case Err(x) => x == MaValue(v) && !Below(v, U64)
            case Ok(next) => Below(v, U64) && exists n :: SetsAge(p, n) && next == svc.(maxAge := Some(n))
  {
    hide TrimQuotes, Spells, SpellsSigned, ParseUnsigned, ParseI32;
    PairIsOne(p, '=', "ma", v);
    SplitOfPair(p, '=');
    UnsignedBelow(v, U64);
    if Below(v, U64) {
      assert SetsAge(p, ParseUnsigned(v, U64).value);
    }
  }

  lemma PersistFaults(svc: Service, p: string, v: string, e: ParseError)
    requires IsPair(p, '=', "persist", v)
    ensures WellFormed(p) <==> FitsI32(v)
    ensures Fault(p, e) <==> e == PersistValue(v) && !FitsI32(v)
    ensures match ApplyParam(svc, p)
            case Err(x) => x == PersistValue(v) && !FitsI32(v)
            case Ok(next) => FitsI32(v) && exists n :: SetsPersist(p, n) && next == if n == 1 then svc.(persist := true) else svc
  {
    hide TrimQuotes, Spells, SpellsSigned, ParseUnsigned, ParseI32;
    PairIsOne(p, '=', "persist", v);
    SplitOfPair(p, '=');
    SignedFits(v);
    if FitsI32(v) {
      assert SetsPersist(p, ParseI32(v).value);
    }
  }

  lemma NoAuthorityFaults(svc: Service, p: string, id: string, v: string, e: ParseError)
    requires IsPair(p, '=', id, v) && !IsReserved(id) && !HasPair(TrimQuotes(v), ':')
    ensures ApplyParam(svc, p) == Err(AltAuthorityValue(TrimQuotes(v))) && !WellFormed(p)
    ensures Fault(p, e) <==> e == AltAuthorityValue(TrimQuotes(v))
  {
    hide TrimQuotes, Spells, SpellsSigned, ParseUnsigned, ParseI32;
    PairIsOne(p, '=', id, v);
    SplitOfPair(p, '=');
    SplitOfPair(TrimQuotes(v), ':');
  }

  lemma AuthorityFaults(svc: Service, p: string, id: string, v: string, host: string, q: string, e: ParseError)
    requires IsPair(p, '=', id, v) && !IsReserved(id) && IsPair(TrimQuotes(v), ':', host, q)
    ensures WellFormed(p) <==> Below(q, PORTS)
    ensures Fault(p, e) <==> e == PortNumber(q) && !Below(q, PORTS)
    ensures match ApplyParam(svc, p)
            case Err(x) => x == PortNumber(q) && !Below(q, PORTS)
            case Ok(next) => Below(q, PORTS) && exists port :: Names(p, id, host, port) && next == svc.(id := id, host := host, port := port)
  {
    hide TrimQuotes, Spells, SpellsSigned, ParseUnsigned, ParseI32;
    PairIsOne(p, '=', id, v);
    PairIsOne(TrimQuotes(v), ':', host, q);
    SplitOfPair(p, '=');
    SplitOfPair(TrimQuotes(v), ':');
    UnsignedBelow(q, PORTS);
    if Below(q, PORTS) {
      assert Names(p, id, host, ParseUnsigned(q, PORTS).value);
    }
  }

  /** The change a parameter makes to the service it belongs to. */
  ghost predicate Changes(p: string, svc: Service, next: Service) {
    || (exists n :: SetsAge(p, n) && next == svc.(maxAge := Some(n)))
    || (exists n :: SetsPersist(p, n) && next == if n == 1 then svc.(persist := true) else svc)
    || (exists id, host, port :: Names(p, id, host, port) && next == svc.(id := id, host := host, port := port))
  }

  lemma ParamRead(svc: Service, p: string, e: ParseError)
    ensures ApplyParam(svc, p).Ok? <==> WellFormed(p)
    ensures ApplyParam(svc, p) == Err(e) <==> Fault(p, e)
    ensures ApplyParam(svc, p).Ok? ==> Changes(p, svc, ApplyParam(svc, p).value)
  {
    hide TrimQuotes, Spells, SpellsSigned, ApplyParam, WellFormed, Fault, Names, SetsAge, SetsPersist, IsPair, Below, FitsI32;
    if !HasPair(p, '=') {
      NoPairFaults(svc, p, e);
    } else {
      var id, v :| IsPair(p, '=', id, v);
      if id == "ma" {
        AgeFaults(svc, p, v, e);
      } else if id == "persist" {
        PersistFaults(svc, p, v, e);
      } else if !HasPair(TrimQuotes(v), ':') {
        NoAuthorityFaults(svc, p, id, v, e);
      } else {
        var host, q :| IsPair(TrimQuotes(v), ':', host, q);
        AuthorityFaults(svc, p, id, v, host, q, e);
      }
    }
  }

  // ----- the parameters of one service -----

  /** The parameters one after another. */
  function Folded(svc: Service, ps: seq<string>): Result<Service> {
    if ps == [] then Ok(svc)
    else
      var before :- Folded(svc, ps[..|ps| - 1]);
      ApplyParam(before, ps[|ps| - 1])
  }

  lemma {:induction false} FoldedCons(svc: Service, p: string, ps: seq<string>)
    ensures Folded(svc, [p] + ps) ==
            match ApplyParam(svc, p) case Err(e) => Err(e) case Ok(next) => Folded(next, ps)
  {
    hide ApplyParam;
    var all := [p] + ps;
    if ps == [] {
      assert all[..0] == [] && all[0] == p;
    } else {
      FoldedCons(svc, p, ps[..|ps| - 1]);
      assert all[..|all| - 1] == [p] + ps[..|ps| - 1] && all[|all| - 1] == ps[|ps| - 1];
    }
  }

  lemma {:induction false} ServiceFolded(svc: Service, params: seq<string>)
    ensures ApplyParams(svc, params) == Folded(svc, Trimmed(params))
    decreases |params|
  {
    hide ApplyParam, Trim;
    if params != [] {
      var p := Trim(params[0]);
      if p == [] {
        ServiceFolded(svc, params[1..]);
        assert [] + Trimmed(params[1..]) == Trimmed(params[1..]);
      } else {
        FoldedCons(svc, p, Trimmed(params[1..]));
        if ApplyParam(svc, p).Ok? {
          ServiceFolded(ApplyParam(svc, p).value, params[1..]);
        }
      }
    }
  }

  ghost predicate AllWellFormed(ps: seq<string>) {
    forall i :: 0 <= i < |ps| ==> WellFormed(ps[i])
  }

  /** The error is that of the first parameter with a fault. */
  ghost predicate FirstFault(ps: seq<string>, e: ParseError) {
    exists i :: 0 <= i < |ps| && Fault(ps[i], e) && AllWellFormed(ps[..i])
  }

  ghost predicate SaysPersist(persist: bool, ps: seq<string>) {
    persist <==> exists i :: 0 <= i < |ps| && SetsPersist(ps[i], 1)
  }

  ghost predicate SaysAge(age: Option<nat>, ps: seq<string>) {
    match age
    case None => forall i :: 0 <= i < |ps| ==> !AnyAge(ps[i])
    case Some(n) => exists i :: 0 <= i < |ps| && SetsAge(ps[i], n) && forall j :: i < j < |ps| ==> !AnyAge(ps[j])
  }

  ghost predicate SaysName(id: string, host: string, port: nat, ps: seq<string>) {
    if forall i :: 0 <= i < |ps| ==> !AnyName(ps[i]) then id == "" && host == "" && port == 0
    else exists i :: 0 <= i < |ps| && Names(ps[i], id, host, port) && forall j :: i < j < |ps| ==> !AnyName(ps[j])
  }

  /** A service is persistent if any parameter says so; age and authority are those of the last parameter to set them. */
  ghost predicate Describes(svc: Service, ps: seq<string>) {
    SaysPersist(svc.persist, ps) && SaysAge(svc.maxAge, ps) && SaysName(svc.id, svc.host, svc.port, ps)
  }

  lemma {:induction false} FirstFaultSnoc(ps: seq<string>, p: string, e: ParseError)
    ensures FirstFault(ps + [p], e) <==> FirstFault(ps, e) || (AllWellFormed(ps) && Fault(p, e))
  {
    hide WellFormed, Fault;
    var all := ps + [p];
    assert all[..|ps|] == ps && all[|ps|] == p;
    assert forall i :: 0 <= i <= |ps| ==> all[..i] == ps[..i];
    assert forall i :: 0 <= i < |ps| ==> all[i] == ps[i];
    if AllWellFormed(ps) && Fault(p, e) {
      assert Fault(all[|ps|], e) && AllWellFormed(all[..|ps|]);
    }
    if i :| 0 <= i < |ps| && Fault(ps[i], e) && AllWellFormed(ps[..i]) {
      assert Fault(all[i], e) && AllWellFormed(all[..i]);
    }
  }

  /** The three kinds of parameter exclude each other, and the number one sets is unique. */
  lemma KindsExclude(p: string)
    ensures !(AnyAge(p) && AnyPersist(p)) && !(AnyAge(p) && AnyName(p)) && !(AnyPersist(p) && AnyName(p))
    ensures forall m, n :: SetsPersist(p, m) && SetsPersist(p, n) ==> m == n
  {
    hide TrimQuotes, Spells, SpellsSigned;
    if HasPair(p, '=') {
      var id, v :| IsPair(p, '=', id, v);
      PairIsOne(p, '=', id, v);
      SignedFits(v);
    }
  }

  lemma PersistSnoc(persist: bool, ps: seq<string>, p: string)
    requires SaysPersist(persist, ps)
    ensures SaysPersist(persist || SetsPersist(p, 1), ps + [p])
  {
    hide SetsPersist;
    var all := ps + [p];
    assert all[|ps|] == p && forall i :: 0 <= i < |ps| ==> all[i] == ps[i];
  }

  lemma AgeSnoc(age: Option<nat>, ps: seq<string>, p: string)
    requires SaysAge(age, ps)
    ensures !AnyAge(p) ==> SaysAge(age, ps + [p])
    ensures forall n :: SetsAge(p, n) ==> SaysAge(Some(n), ps + [p])
  {
    hide SetsAge, AnyAge;
    var all := ps + [p];
    assert all[|ps|] == p && forall i :: 0 <= i < |ps| ==> all[i] == ps[i];
    if age.Some? {
      var i :| 0 <= i < |ps| && SetsAge(ps[i], age.value) && forall j :: i < j < |ps| ==> !AnyAge(ps[j]);
      assert SetsAge(all[i], age.value);
    }
  }

  lemma NameSnoc(id: string, host: string, port: nat, ps: seq<string>, p: string)
    requires SaysName(id, host, port, ps)
    ensures !AnyName(p) ==> SaysName(id, host, port, ps + [p])
    ensures forall i, h, n :: Names(p, i, h, n) ==> SaysName(i, h, n, ps + [p])
  {
    hide Names;
    var all := ps + [p];
    assert all[|ps|] == p && forall i :: 0 <= i < |ps| ==> all[i] == ps[i];
    if !(forall i :: 0 <= i < |ps| ==> !AnyName(ps[i])) {
      var i :| 0 <= i < |ps| && Names(ps[i], id, host, port) && forall j :: i < j < |ps| ==> !AnyName(ps[j]);
      assert Names(all[i], id, host, port) && AnyName(all[i]);
    }
  }

  lemma DescribesSnoc(prev: Service, ps: seq<string>, p: string, next: Service)
    requires Describes(prev, ps) && Changes(p, prev, next)
    ensures Describes(next, ps + [p])
  {
    hide SetsAge, SetsPersist, Names, SaysPersist, SaysAge, SaysName;
    KindsExclude(p);
    PersistSnoc(prev.persist, ps, p);
    AgeSnoc(prev.maxAge, ps, p);
    NameSnoc(prev.id, prev.host, prev.port, ps, p);
  }

  lemma {:induction false} FoldedRead(ps: seq<string>, e: ParseError)
    ensures Folded(DEFAULT_SERVICE, ps).Ok? <==> AllWellFormed(ps)
    ensures Folded(DEFAULT_SERVICE, ps) == Err(e) <==> FirstFault(ps, e)
    ensures Folded(DEFAULT_SERVICE, ps).Ok? ==> Describes(Folded(DEFAULT_SERVICE, ps).value, ps)
  {
    hide ApplyParam, WellFormed, Fault, Changes, SetsAge, SetsPersist, Names;
    if ps != [] {
      hide Describes;
      var before, p := ps[..|ps| - 1], ps[|ps| - 1];
      assert before + [p] == ps;
      FoldedRead(before, e);
      FirstFaultSnoc(before, p, e);
      var prev := Folded(DEFAULT_SERVICE, before);
      if prev.Ok? {
        ParamRead(prev.value, p, e);
        if ApplyParam(prev.value, p).Ok? {
          DescribesSnoc(prev.value, before, p, ApplyParam(prev.value, p).value);
        }
      }
    }
  }

  // ----- the whole field value -----

  lemma {:induction false} FirstFaultAppend(a: seq<string>, b: seq<string>, e: ParseError)
    ensures AllWellFormed(a + b) <==> AllWellFormed(a) && AllWellFormed(b)
    ensures FirstFault(a + b, e) <==> FirstFault(a, e) || (AllWellFormed(a) && FirstFault(b, e))
  {
    hide WellFormed, Fault;
    if b == [] {
      assert a + b == a;
    } else {
      var before, p := b[..|b| - 1], b[|b| - 1];
      assert a + b == a + before + [p] && before + [p] == b;
      FirstFaultAppend(a, before, e);
      FirstFaultSnoc(a + before, p, e);
      FirstFaultSnoc(before, p, e);
      WellFormedSnoc(before, p);
      WellFormedSnoc(a + before, p);
    }
  }

  lemma WellFormedSnoc(ps: seq<string>, p: string)
    ensures AllWellFormed(ps + [p]) <==> AllWellFormed(ps) && WellFormed(p)
  {
    hide WellFormed;
    var all := ps + [p];
    assert all[|ps|] == p && forall i :: 0 <= i < |ps| ==> all[i] == ps[i];
  }

  ghost predicate AllDescribed(list: seq<Service>, services: seq<string>) {
    |list| == |services| && forall i :: 0 <= i < |list| ==> Describes(list[i], ParamTexts(services[i]))
  }

  lemma AllDescribedCons(svc: Service, service: string, list: seq<Service>, services: seq<string>)
    requires Describes(svc, ParamTexts(service)) && AllDescribed(list, services)
    ensures AllDescribed([svc] + list, [service] + services)
  {
    hide Describes, ParamTexts;
  }

  lemma ServiceRead(text: string, e: ParseError)
    ensures ServiceOf(text).Ok? <==> AllWellFormed(ParamTexts(text))
    ensures ServiceOf(text) == Err(e) <==> FirstFault(ParamTexts(text), e)
    ensures ServiceOf(text).Ok? ==> Describes(ServiceOf(text).value, ParamTexts(text))
  {
    hide Folded, Describes, FirstFault, AllWellFormed, Trimmed;
    ServiceFolded(DEFAULT_SERVICE, Split(text, ';'));
    FoldedRead(ParamTexts(text), e);
  }

  lemma {:induction false} ServicesRead(texts: seq<string>, e: ParseError)
    ensures ServicesOf(texts).Ok? <==> AllWellFormed(ParamsOf(Trimmed(texts)))
    ensures ServicesOf(texts) == Err(e) <==> FirstFault(ParamsOf(Trimmed(texts)), e)
    ensures ServicesOf(texts).Ok? ==> AllDescribed(ServicesOf(texts).value, Trimmed(texts))
  {
    hide ServiceOf, Trim, WellFormed, Fault, Describes, ParamTexts;
    if texts != [] {
      hide FirstFault, AllWellFormed, AllDescribed;
      ServicesRead(texts[1..], e);
      var text, rest := Trim(texts[0]), Trimmed(texts[1..]);
      if text == [] {
        assert [] + rest == rest;
      } else {
        ServiceRead(text, e);
        assert ([text] + rest)[1..] == rest;
        FirstFaultAppend(ParamTexts(text), ParamsOf(rest), e);
        if ServiceOf(text).Ok? && ServicesOf(texts[1..]).Ok? {
          AllDescribedCons(ServiceOf(text).value, text, ServicesOf(texts[1..]).value, rest);
        }
      }
    }
  }

  /** A field value is accepted exactly when it is `clear` or every parameter in it is well-formed. */
  lemma {:induction false} AcceptedIff(s: string)
    ensures Meaning(s).Ok? <==> s == "clear" || AllWellFormed(ParamsOf(ServiceTexts(s)))
  {
    hide ServicesOf, AllWellFormed, ParamsOf, Trimmed, Split;
    ServicesRead(Split(s, ','), Parameter(""));
  }

  /** Otherwise the error is that of the first parameter with a fault, in the order of the text. */
  lemma {:induction false} RejectedIff(s: string, e: ParseError)
    ensures Meaning(s) == Err(e) <==> s != "clear" && FirstFault(ParamsOf(ServiceTexts(s)), e)
  {
    hide ServicesOf, FirstFault, ParamsOf, Trimmed, Split;
    ServicesRead(Split(s, ','), e);
  }

  /** An accepted value has one service for each text between commas that is not blank, saying what its parameters say. */
  lemma {:induction false} AcceptedSays(s: string)
    requires Meaning(s).Ok?
    ensures Meaning(s).value.Clear? <==> s == "clear"
    ensures Meaning(s).value.Services? ==> AllDescribed(Meaning(s).value.list, ServiceTexts(s))
  {
    hide ServicesOf, AllDescribed, Trimmed, Split;
    ServicesRead(Split(s, ','), Parameter(""));
  }

  predicate Plain(p: string) {
    p != [] && !IsWhitespace(p[0]) && !IsWhitespace(p[|p| - 1]) && ',' !in p && ';' !in p
  }

  lemma TrimPlain(pad: string, s: string)
    requires s != [] && !IsWhitespace(s[0]) && !IsWhitespace(s[|s| - 1]) && (pad == "" || pad == " ")
    ensures Trim(pad + s) == s
  {
    hide TrimMatches, IsWhitespace;
    assert IsWhitespace(' ') by {
      WhitespaceIs(' ');
    }
    assert forall c :: c in pad ==> c == ' ';
    TrimPadded(pad, s, "", IsWhitespace);
    assert pad + s + "" == pad + s;
  }

  lemma TwoParams(a: string, b: string)
    requires Plain(a) && Plain(b)
    ensures ParamsOf(ServiceTexts(a + ([';'] + (" " + b)))) == [a, b]
  {
    hide IsWhitespace, Trim, Split;
    var s := a + ([';'] + (" " + b));
    assert s[0] == a[0] && s[|s| - 1] == b[|b| - 1];
    SplitWithout(s, ',');
    SplitPair(a, " " + b, ';');
    TrimPlain("", s);
    TrimPlain("", a);
    TrimPlain(" ", b);
    assert "" + s == s && "" + a == a;
    TrimmedOne(s);
    TrimmedTwo(a, " " + b);
    assert ParamTexts(s) == [a, b];
    assert [s][1..] == [] && [a, b] + [] == [a, b];
    assert ParamsOf([s]) == ParamTexts(s) + ParamsOf([s][1..]);
  }

  lemma TrimmedOne(t: string)
    requires Trim(t) != []
    ensures Trimmed([t]) == [Trim(t)]
  {
    hide Trim;
    assert Trimmed([t][1..]) == [];
  }

  lemma TrimmedTwo(t: string, u: string)
    requires Trim(t) != [] && Trim(u) != []
    ensures Trimmed([t, u]) == [Trim(t), Trim(u)]
  {
    hide Trim;
    assert [t, u][1..] == [u];
    TrimmedOne(u);
  }

  /** A faulty parameter fails the whole value, even after a good one. */
  lemma StrayParameter(good: string, bad: string, e: ParseError)
    requires Plain(good) && Plain(bad) && WellFormed(good) && Fault(bad, e)
    ensures Meaning(good + ([';'] + (" " + bad))) == Err(e)
  {
    hide Plain, WellFormed, Fault, Meaning, Split, Trim, ParamsOf, ServiceTexts;
    var s, ps := good + ([';'] + (" " + bad)), [good, bad];
    TwoParams(good, bad);
    assert Fault(ps[1], e) && AllWellFormed(ps[..1]);
    assert s[|good|] == ';' && ';' !in "clear";
    RejectedIff(s, e);
  }
}
