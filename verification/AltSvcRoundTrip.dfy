/** Printing and parsing the Alt-Svc field are inverse to each other. */
module AltSvcRoundTrip {
  import opened Prelude
  import opened Text
  import opened AltSvc

  // ----- what the parser returns can be spelled -----

  ghost predicate Clean(s: string) {
    ',' !in s && ';' !in s
  }

  lemma TrimQuotesKeeps(s: string)
    ensures forall c :: c in TrimQuotes(s) ==> c in s
    ensures TrimQuotes(s) != [] ==> TrimQuotes(s)[0] != '"'
  {
  }

  lemma ApplyParamSpellable(svc: Service, raw: string)
    requires Spellable(svc) && Clean(raw) && raw != [] && !IsWhitespace(raw[0])
    ensures ApplyParam(svc, raw).Ok? ==> Spellable(ApplyParam(svc, raw).value)
  {
    hide TrimQuotes, ParseUnsigned, ParseI32, IsWhitespace;
    var kv := Split(raw, '=');
    SplitPieces(raw, '=');
    FirstPiece(raw, '=');
    if |kv| == 2 && kv[0] != "ma" && kv[0] != "persist" {
      var authority := Split(TrimQuotes(kv[1]), ':');
      TrimQuotesKeeps(kv[1]);
      SplitPieces(TrimQuotes(kv[1]), ':');
      FirstPiece(TrimQuotes(kv[1]), ':');
      assert forall c :: c in kv[0] ==> c in raw;
      assert forall c :: c in authority[0] ==> c in TrimQuotes(kv[1]) && c in kv[1] && c in raw;
      if |authority| == 2 {
        UnsignedInRange(authority[1], PORTS);
      }
    } else if |kv| == 2 {
      UnsignedInRange(kv[1], U64);
    }
  }

  lemma UnsignedInRange(s: string, limit: nat)
    ensures ParseUnsigned(s, limit).Some? ==> ParseUnsigned(s, limit).value < limit
  {
  }

  lemma {:induction false} ApplyParamsSpellable(svc: Service, params: seq<string>)
    requires Spellable(svc) && forall i :: 0 <= i < |params| ==> Clean(params[i])
    ensures ApplyParams(svc, params).Ok? ==> Spellable(ApplyParams(svc, params).value)
    decreases |params|
  {
    hide Spellable, ApplyParam, IsWhitespace;
    if params != [] {
      var raw := Trim(params[0]);
      assert Clean(params[0]);
      assert forall i :: 0 <= i < |params[1..]| ==> params[1..][i] == params[i + 1];
      if raw == [] {
        ApplyParamsSpellable(svc, params[1..]);
      } else {
        ApplyParamSpellable(svc, raw);
        if ApplyParam(svc, raw).Ok? {
          ApplyParamsSpellable(ApplyParam(svc, raw).value, params[1..]);
        }
      }
    }
  }

  lemma ServiceOfSpellable(text: string)
    requires ',' !in text
    ensures ServiceOf(text).Ok? ==> Spellable(ServiceOf(text).value)
  {
    SplitPieces(text, ';');
    var params := Split(text, ';');
    forall i | 0 <= i < |params| ensures Clean(params[i]) {
      forall c | c in params[i] ensures c in text && c != ';' {
      }
    }
    ApplyParamsSpellable(DEFAULT_SERVICE, Split(text, ';'));
  }

  lemma {:induction false} ServicesOfSpellable(texts: seq<string>)
    requires forall i :: 0 <= i < |texts| ==> ',' !in texts[i]
    ensures ServicesOf(texts).Ok? ==> AllSpellable(ServicesOf(texts).value)
  {
    hide Spellable, ServiceOf;
    if texts != [] {
      assert forall i :: 0 <= i < |texts[1..]| ==> texts[1..][i] == texts[i + 1];
      ServicesOfSpellable(texts[1..]);
      assert ',' !in texts[0];
      ServiceOfSpellable(Trim(texts[0]));
    }
  }

  // ----- one parameter -----

  lemma DigitsOnly(s: string, c: char)
    requires AllDigits(s) && !IsDigit(c)
    ensures c !in s
  {
  }

  lemma TrimQuoted(s: string)
    requires s != [] && s[0] != '"' && s[|s| - 1] != '"'
    ensures TrimQuotes("\"" + s + "\"") == s
  {
    TrimPadded("\"", s, "\"", c => c == '"');
  }

  lemma DecimalEnds(n: nat)
    ensures var s := Decimal(n); IsDigit(s[0]) && IsDigit(s[|s| - 1])
  {
  }

  /** The printed authority sets the identifier, the host and the port. */
  lemma ApplyAuthority(base: Service, svc: Service)
    requires Spellable(svc)
    ensures ApplyParam(base, PrintParams(svc)[0]) == Ok(base.(id := svc.id, host := svc.host, port := svc.port))
  {
    hide IsWhitespace, Trim, TrimQuotes;
    var port := Decimal(svc.port);
    var authority := svc.host + (":" + port);
    var v := "\"" + authority + "\"";
    DigitsOnly(port, '=');
    DigitsOnly(port, ':');
    DecimalEnds(svc.port);
    assert authority[|authority| - 1] == port[|port| - 1] != '"';
    TrimQuoted(authority);
    assert '=' !in authority && '=' !in v;
    SplitPair(svc.id, v, '=');
    SplitPair(svc.host, port, ':');
    ParsePrinted(svc.port, PORTS);
  }

  lemma ApplyMaxAge(svc: Service, n: nat)
    requires n < U64
    ensures ApplyParam(svc, "ma" + ("=" + Decimal(n))) == Ok(svc.(maxAge := Some(n)))
  {
    DigitsOnly(Decimal(n), '=');
    SplitPair("ma", Decimal(n), '=');
    ParsePrinted(n, U64);
  }

  lemma ApplyPersist(svc: Service)
    ensures ApplyParam(svc, "persist" + ("=" + "1")) == Ok(svc.(persist := true))
  {
    SplitPair("persist", "1", '=');
    assert DecimalValue("1") == 1 by {
      assert "1"[..0] == [];
    }
  }

  // ----- one service -----

  /** Text that trimming leaves alone and that holds no list separator. */
  ghost predicate Solid(s: string) {
    s != [] && !IsWhitespace(s[0]) && !IsWhitespace(s[|s| - 1])
  }

  lemma TrimSolid(s: string)
    requires Solid(s)
    ensures Trim(s) == s && Trim(" " + s) == s
  {
    TrimPadded("", s, "", IsWhitespace);
    TrimPadded(" ", s, "", IsWhitespace);
    assert "" + s + "" == s && " " + s + "" == " " + s;
  }

  /** Splitting a separated list of solid texts gives the texts, all but the first with a space in front. */
  function Spaced(texts: seq<string>): seq<string> {
    if texts == [] then [] else [" " + texts[0]] + Spaced(texts[1..])
  }

  lemma {:induction false} SplitSeparated(texts: seq<string>, sep: char)
    requires texts != [] && sep != ' ' && forall i :: 0 <= i < |texts| ==> sep !in texts[i]
    ensures Split(Separate(texts, sep), sep) == [texts[0]] + Spaced(texts[1..])
    ensures Split(" " + Separate(texts, sep), sep) == [" " + texts[0]] + Spaced(texts[1..])
  {
    if |texts| == 1 {
      SplitWithout(texts[0], sep);
      SplitWithout(" " + texts[0], sep);
    } else {
      var rest := " " + Separate(texts[1..], sep);
      assert forall i :: 0 <= i < |texts[1..]| ==> texts[1..][i] == texts[i + 1];
      SplitSeparated(texts[1..], sep);
      SplitPadded(texts[0], rest, sep);
      assert Split(rest, sep) == Spaced(texts[1..]);
    }
  }

  lemma {:induction false} SplitPadded(a: string, rest: string, sep: char)
    requires sep != ' ' && sep !in a
    ensures Split(a + ([sep] + rest), sep) == [a] + Split(rest, sep)
    ensures Split(" " + (a + ([sep] + rest)), sep) == [" " + a] + Split(rest, sep)
  {
    SplitAtFirst(a, rest, sep);
    SplitAtFirst(" " + a, rest, sep);
    assert " " + (a + ([sep] + rest)) == (" " + a) + ([sep] + rest);
  }

  lemma {:induction false} ApplyStep(svc: Service, padded: string, param: string, rest: seq<string>)
    requires Solid(param) && (padded == param || padded == " " + param)
    requires ApplyParam(svc, param).Ok?
    ensures ApplyParams(svc, [padded] + rest) == ApplyParams(ApplyParam(svc, param).value, rest)
  {
    hide ApplyParam, IsWhitespace;
    TrimSolid(param);
    assert ([padded] + rest)[1..] == rest;
  }

  lemma PrintedParamsSolid(svc: Service)
    requires Spellable(svc)
    ensures var ps := PrintParams(svc);
            forall i :: 0 <= i < |ps| ==> Solid(ps[i]) && ',' !in ps[i] && ';' !in ps[i]
  {
    hide IsWhitespace;
    PlainNotWhitespace();
    DigitsOnly(Decimal(svc.port), ',');
    DigitsOnly(Decimal(svc.port), ';');
    if svc.maxAge.Some? {
      DecimalEnds(svc.maxAge.value);
      DigitsOnly(Decimal(svc.maxAge.value), ',');
      DigitsOnly(Decimal(svc.maxAge.value), ';');
      assert !IsWhitespace(Decimal(svc.maxAge.value)[|Decimal(svc.maxAge.value)| - 1]);
    }
    var first := PrintParams(svc)[0];
    assert first[0] == if svc.id == [] then '=' else svc.id[0];
    assert first[|first| - 1] == '"';
  }

  lemma PlainNotWhitespace()
    ensures forall c :: IsDigit(c) || c in {'=', '"', 'm', 'p'} ==> !IsWhitespace(c)
  {
  }

  lemma {:induction false} ServiceRoundTrip(svc: Service)
    requires Spellable(svc)
    ensures ServiceOf(PrintService(svc)) == Ok(svc)
  {
    hide Spellable, Solid, ApplyParam, IsWhitespace, Decimal;
    var ps := PrintParams(svc);
    PrintedParamsSolid(svc);
    SplitSeparated(ps, ';');
    var s1 := DEFAULT_SERVICE.(id := svc.id, host := svc.host, port := svc.port);
    ApplyAuthority(DEFAULT_SERVICE, svc);
    ApplyStep(DEFAULT_SERVICE, ps[0], ps[0], Spaced(ps[1..]));
    AfterAuthority(s1, svc);
    assert ApplyParams(s1, Spaced(ps[1..])) == Ok(svc);
  }

  /** The parameters after the authority fill in the rest. */
  lemma {:induction false} AfterAuthority(s1: Service, svc: Service)
    requires Spellable(svc) && s1 == DEFAULT_SERVICE.(id := svc.id, host := svc.host, port := svc.port)
    ensures ApplyParams(s1, Spaced(PrintParams(svc)[1..])) == Ok(svc)
  {
    hide Solid, ApplyParam, IsWhitespace, Decimal;
    var ps := PrintParams(svc);
    PrintedParamsSolid(svc);
    var rest := ps[1..];
    var s2 := s1.(maxAge := svc.maxAge);
    if svc.maxAge.Some? {
      ApplyMaxAge(s1, svc.maxAge.value);
      assert rest[0] == ps[1] == "ma" + ("=" + Decimal(svc.maxAge.value));
      ApplyStep(s1, " " + rest[0], rest[0], Spaced(rest[1..]));
      rest := rest[1..];
    }
    assert ApplyParams(s1, Spaced(ps[1..])) == ApplyParams(s2, Spaced(rest));
    if svc.persist {
      ApplyPersist(s2);
      assert rest[0] == "persist" + ("=" + "1") && rest[0] == ps[|ps| - 1] && rest[1..] == [];
      ApplyStep(s2, " " + rest[0], rest[0], []);
    } else {
      assert rest == [];
    }
  }

  // ----- the whole field -----

  lemma {:induction false} SeparateSolid(texts: seq<string>, sep: char)
    requires texts != [] && forall i :: 0 <= i < |texts| ==> Solid(texts[i])
    ensures Solid(Separate(texts, sep))
  {
    hide IsWhitespace;
    if |texts| > 1 {
      assert forall i :: 0 <= i < |texts[1..]| ==> texts[1..][i] == texts[i + 1];
      SeparateSolid(texts[1..], sep);
      var s, rest := Separate(texts, sep), Separate(texts[1..], sep);
      assert s[0] == texts[0][0] && s[|s| - 1] == rest[|rest| - 1];
    }
  }

  lemma {:induction false} SeparateAvoids(texts: seq<string>, sep: char, c: char)
    requires c != sep && c != ' ' && forall i :: 0 <= i < |texts| ==> c !in texts[i]
    ensures c !in Separate(texts, sep)
  {
    if |texts| > 1 {
      assert forall i :: 0 <= i < |texts[1..]| ==> texts[1..][i] == texts[i + 1];
      SeparateAvoids(texts[1..], sep, c);
    }
  }

  lemma PrintedServiceSolid(svc: Service)
    requires Spellable(svc)
    ensures Solid(PrintService(svc)) && ',' !in PrintService(svc)
  {
    hide Spellable, Solid, IsWhitespace, Decimal;
    PrintedParamsSolid(svc);
    SeparateSolid(PrintParams(svc), ';');
    SeparateAvoids(PrintParams(svc), ';', ',');
  }

  lemma {:induction false} PrintedWithoutComma(list: seq<Service>)
    requires AllSpellable(list)
    ensures forall i :: 0 <= i < |list| ==> ',' !in PrintAll(list)[i]
  {
    hide Spellable, AllSpellable, Solid, PrintService;
    if list != [] {
      AllSpellableTail(list);
      PrintedServiceSolid(list[0]);
      PrintedWithoutComma(list[1..]);
      assert PrintAll(list)[1..] == PrintAll(list[1..]);
    }
  }

  lemma AllSpellableTail(list: seq<Service>)
    requires AllSpellable(list) && list != []
    ensures Spellable(list[0]) && AllSpellable(list[1..])
  {
    hide Spellable;
    assert forall i :: 0 <= i < |list[1..]| ==> list[1..][i] == list[i + 1];
  }

  /** The printed services, each with the space that precedes it, are read back in order. */
  lemma {:induction false} ServicesRoundTrip(list: seq<Service>)
    requires AllSpellable(list)
    ensures ServicesOf(Spaced(PrintAll(list))) == Ok(list)
  {
    hide Spellable, AllSpellable, Solid, PrintService, ServiceOf, IsWhitespace, PrintAll, ServicesOf, Spaced;
    if list == [] {
      NothingPrinted();
    } else {
      AllSpellableTail(list);
      PrintAllParts(list);
      SpacedParts(PrintAll(list));
      ServicesRoundTrip(list[1..]);
      PrintedServiceSolid(list[0]);
      ServiceRoundTrip(list[0]);
      ServicesStep(" " + PrintService(list[0]), PrintService(list[0]), Spaced(PrintAll(list[1..])));
    }
  }

  lemma NothingPrinted()
    ensures ServicesOf(Spaced(PrintAll([]))) == Ok([])
  {
    assert Spaced(PrintAll([])) == [];
  }

  lemma SpacedParts(texts: seq<string>)
    requires texts != []
    ensures Spaced(texts) == [" " + texts[0]] + Spaced(texts[1..])
  {
  }

  lemma {:induction false} ServicesStep(padded: string, text: string, rest: seq<string>)
    requires Solid(text) && (padded == text || padded == " " + text) && ServiceOf(text).Ok?
    ensures ServicesOf([padded] + rest) == Prepend([ServiceOf(text).value], ServicesOf(rest))
  {
    hide Solid, ServiceOf, Trim;
    NonEmptyTrim(padded, text);
    assert ([padded] + rest)[1..] == rest;
  }

  lemma NonEmptyTrim(padded: string, text: string)
    requires Solid(text) && (padded == text || padded == " " + text)
    ensures Trim(padded) == text != []
  {
    TrimSolid(text);
  }

  lemma EmptyField()
    ensures ServicesOf(Split("", ',')) == Ok([])
  {
    var texts := Split("", ',');
    assert texts == [""] && texts[1..] == [] && Trim("") == [];
    assert ServicesOf(texts) == ServicesOf([]) == Ok([]);
  }

  lemma PrintAllParts(list: seq<Service>)
    requires list != []
    ensures PrintAll(list) != [] && PrintAll(list)[0] == PrintService(list[0]) && PrintAll(list)[1..] == PrintAll(list[1..])
    ensures [list[0]] + list[1..] == list
  {
    hide PrintService;
  }

  lemma {:induction false} FieldRoundTrip(list: seq<Service>)
    requires AllSpellable(list) && list != []
    ensures ServicesOf(Split(Separate(PrintAll(list), ','), ',')) == Ok(list)
  {
    hide Spellable, AllSpellable, Solid, PrintService, ServiceOf, Separate, Split, PrintAll, ServicesOf, Spaced;
    PrintedWithoutComma(list);
    SplitSeparated(PrintAll(list), ',');
    AllSpellableTail(list);
    PrintAllParts(list);
    ServicesRoundTrip(list[1..]);
    PrintedServiceSolid(list[0]);
    ServiceRoundTrip(list[0]);
    ServicesStep(PrintService(list[0]), PrintService(list[0]), Spaced(PrintAll(list[1..])));
  }

  /** Printing a spellable list and parsing it gives the list back: numbers, options and order included. */
  lemma {:induction false} PrintThenParse(list: seq<Service>)
    requires AllSpellable(list)
    ensures Meaning(Print(Services(list))) == Ok(Services(list))
  {
    hide Spellable, AllSpellable, ServicesOf, Split;
    if list == [] {
      EmptyField();
    } else {
      FieldRoundTrip(list);
      PrintedIsNotClear(list);
    }
  }

  lemma PrintedIsNotClear(list: seq<Service>)
    requires list != []
    ensures Print(Services(list)) != "clear"
  {
    var svc := list[0];
    var s := Print(Services(list));
    var first := PrintParams(svc)[0];
    assert first[|svc.id|] == '=';
    assert PrintService(svc)[|svc.id|] == '=';
    assert s[|svc.id|] == '=';
    assert '=' !in "clear";
  }

  /** What the parser returns is exactly what can be spelled. */
  lemma ParserRange(a: AltService)
    ensures (exists s :: Meaning(s) == Ok(a)) <==> (a.Clear? || AllSpellable(a.list))
  {
    if s :| Meaning(s) == Ok(a) {
      PiecesAvoid(s, ',');
      ServicesOfSpellable(Split(s, ','));
    }
    if a.Clear? {
      assert Meaning("clear") == Ok(a);
    } else if AllSpellable(a.list) {
      PrintThenParse(a.list);
    }
  }

  /** Parsing, printing and parsing again changes nothing, on every accepted field value. */
  lemma {:induction false} ParsePrintParse(s: string)
    requires Meaning(s).Ok?
    ensures Meaning(Print(Meaning(s).value)) == Meaning(s)
  {
    hide ServicesOf;
    var a := Meaning(s).value;
    ParserRange(a);
    if a.Services? {
      PrintThenParse(a.list);
    }
  }
}
