/** The Alt-Svc field (`cyper/src/altsvc.rs`): its parser, its canonical printing, and that each undoes the other. */
module AltSvc {
  import opened Prelude
  import opened Text

  datatype ParseError =
    | Parameter(text: string)
    | MaValue(text: string)
    | PersistValue(text: string)
    | AltAuthorityValue(text: string)
    | PortNumber(text: string)

  datatype Result<+T> = Ok(value: T) | Err(error: ParseError) {
    predicate IsFailure() { Err? }

    function PropagateFailure<U>(): Result<U>
      requires Err?
    {
      Err(error)
    }

    function Extract(): T
      requires Ok?
    {
      value
    }
  }

  const PORTS: nat := 0x1_0000

  datatype Service = Service(id: string, host: string, port: nat, maxAge: Option<nat>, persist: bool)

  datatype AltService = Clear | Services(list: seq<Service>)

  const DEFAULT_SERVICE: Service := Service("", "", 0, None, false)

  function TrimQuotes(s: string): string {
    TrimMatches(s, c => c == '"')
  }

  /** The effect of one `key=value` of a service; the text is trimmed and not empty. */
  function ApplyParam(svc: Service, raw: string): Result<Service> {
    var kv := Split(raw, '=');
    if |kv| != 2 then Err(Parameter(raw))
    else if kv[0] == "ma" then
      match ParseUnsigned(kv[1], U64)
      case None => Err(MaValue(kv[1]))
      case Some(n) => Ok(svc.(maxAge := Some(n)))
    else if kv[0] == "persist" then
      match ParseI32(kv[1])
      case None => Err(PersistValue(kv[1]))
      case Some(n) => Ok(if n == 1 then svc.(persist := true) else svc)
    else
      var authority := Split(TrimQuotes(kv[1]), ':');
      if |authority| != 2 then Err(AltAuthorityValue(TrimQuotes(kv[1])))
      else
        match ParseUnsigned(authority[1], PORTS)
        case None => Err(PortNumber(authority[1]))
        case Some(n) => Ok(svc.(id := kv[0], host := authority[0], port := n))
  }

  function ApplyParams(svc: Service, params: seq<string>): Result<Service>
    decreases |params|
  {
    if params == [] then Ok(svc)
    else if Trim(params[0]) == [] then ApplyParams(svc, params[1..])
    else
      var next :- ApplyParam(svc, Trim(params[0]));
      ApplyParams(next, params[1..])
  }

  function ServiceOf(text: string): Result<Service> {
    ApplyParams(DEFAULT_SERVICE, Split(text, ';'))
  }

  function ServicesOf(texts: seq<string>): Result<seq<Service>> {
    if texts == [] then Ok([])
    else if Trim(texts[0]) == [] then ServicesOf(texts[1..])
    else
      var svc :- ServiceOf(Trim(texts[0]));
      Prepend([svc], ServicesOf(texts[1..]))
  }

  /** What the field value means. */
  function Meaning(s: string): Result<AltService> {
    if s == "clear" then Ok(Clear)
    else
      var list :- ServicesOf(Split(s, ','));
      Ok(Services(list))
  }

  function Prepend(done: seq<Service>, rest: Result<seq<Service>>): Result<seq<Service>> {
    match rest
    case Ok(list) => Ok(done + list)
    case Err(e) => Err(e)
  }

  lemma PrependSnoc(done: seq<Service>, svc: Service, rest: Result<seq<Service>>)
    ensures Prepend(done, Prepend([svc], rest)) == Prepend(done + [svc], rest)
  {
    if rest.Ok? {
      assert done + ([svc] + rest.value) == done + [svc] + rest.value;
    }
  }

  lemma PrependNothing(r: Result<seq<Service>>)
    ensures Prepend([], r) == r
  {
    if r.Ok? {
      assert [] + r.value == r.value;
    }
  }

  /** The parser: nested loops that fill one service after another and stop at the first error. */
  method Parse(s: string) returns (r: Result<AltService>)
    ensures r == Meaning(s)
  {
    hide ApplyParam, Trim, Split;
    if s == "clear" {
      return Ok(Clear);
    }
    var ret: seq<Service> := [];
    var services := Split(s, ',');
    assert services[0..] == services;
    PrependNothing(ServicesOf(services));
    for i := 0 to |services|
      invariant ServicesOf(services) == Prepend(ret, ServicesOf(services[i..]))
    {
      var text := Trim(services[i]);
      if text == [] {
        continue;
      }
      assert services[i..][1..] == services[i + 1..];
      var svc := DEFAULT_SERVICE;
      var params := Split(text, ';');
      assert params[0..] == params;
      for j := 0 to |params|
        invariant ApplyParams(svc, params[j..]) == ServiceOf(text)
      {
        var raw := Trim(params[j]);
        assert params[j..][1..] == params[j + 1..];
        if raw == [] {
          continue;
        }
        match ApplyParam(svc, raw) {
          case Err(e) => return Err(e);
          case Ok(next) => svc := next;
        }
      }
      assert params[|params|..] == [];
      PrependSnoc(ret, svc, ServicesOf(services[i + 1..]));
      ret := ret + [svc];
    }
    assert ret + [] == ret;
    assert services[|services|..] == [];
    return Ok(Services(ret));
  }

  // ----- printing -----

  function PrintParams(svc: Service): seq<string> {
    [svc.id + ("=" + ("\"" + (svc.host + (":" + Decimal(svc.port))) + "\""))]
    + (if svc.maxAge.Some? then ["ma" + ("=" + Decimal(svc.maxAge.value))] else [])
    + (if svc.persist then ["persist" + ("=" + "1")] else [])
  }

  /** Texts separated by the given character and a space. */
  function Separate(texts: seq<string>, sep: char): string {
    if texts == [] then []
    else if |texts| == 1 then texts[0]
    else texts[0] + ([sep] + (" " + Separate(texts[1..], sep)))
  }

  function PrintService(svc: Service): string {
    Separate(PrintParams(svc), ';')
  }

  function PrintAll(list: seq<Service>): (texts: seq<string>)
    ensures |texts| == |list|
  {
    if list == [] then [] else [PrintService(list[0])] + PrintAll(list[1..])
  }

  function Print(a: AltService): string {
    match a
    case Clear => "clear"
    case Services(list) => Separate(PrintAll(list), ',')
  }

  /** The services a field value can spell. */
  predicate Spellable(svc: Service) {
    && (forall c :: c in svc.id ==> c !in {',', ';', '='})
    && (svc.id != [] ==> !IsWhitespace(svc.id[0]))
    && svc.id != "ma" && svc.id != "persist"
    && (forall c :: c in svc.host ==> c !in {',', ';', '=', ':'})
    && (svc.host != [] ==> svc.host[0] != '"')
    && svc.port < PORTS
    && (svc.maxAge.Some? ==> svc.maxAge.value < U64)
  }

  predicate AllSpellable(list: seq<Service>) {
    forall i :: 0 <= i < |list| ==> Spellable(list[i])
  }
}
