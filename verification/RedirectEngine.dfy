/** The redirect loop of `execute_impl` in `cyper/src/client.rs`, run against an arbitrary server. */
module RedirectEngine {
  import opened Prelude
  import opened BodyStream
  import opened HeaderMaps
  import opened Redirect

  datatype Request = Request(method_: string, url: Url, headers: Headers, body: BodyInner)

  /** The part of a response the loop looks at; `location` is there if the field is present and is text. */
  datatype Response = Response(status: nat, location: Option<string>)

  /**
    What the loop cannot see into: the server, which may answer by everything it has been sent so far or not at all,
    the resolution of a reference against a URL, the serialisation of a URL as a field value, and whether it parses as
    a URI.
  */
  datatype World = World(
    serve: seq<Request> -> Option<Response>, join: (Url, string) -> Option<Url>, text: Url -> Option<string>,
    isUri: Url -> bool)

  /** `altSvc` says whether known hosts are looked up on sending. */
  datatype Config = Config(policy: Policy, referer: bool, altSvc: bool)

  /** Sending panics on a URL that is no URI, and on one without a host when known hosts are looked up. */
  predicate Sendable(w: World, cfg: Config, url: Url) {
    w.isUri(url) && (cfg.altSvc ==> url.host.Some?)
  }

  datatype Outcome = Returned(res: Response) | TooManyRedirects | SendFailed | Panicked | StillRedirecting

  // ----- one hop -----

  predicate IsRedirection(status: nat) {
    300 <= status < 400
  }

  /** The next URL, if the response is a redirection with a usable location. */
  function NextUrl(w: World, url: Url, res: Response): Option<Url> {
    if !IsRedirection(res.status) then None
    else
      var location :- res.location;
      w.join(url, location)
  }

  predicate TurnsToGet(status: nat) {
    status == 301 || status == 302
  }

  predicate DropsBody(status: nat) {
    TurnsToGet(status) || status == 303
  }

  predicate KeepsBody(status: nat) {
    status == 307 || status == 308
  }

  function SetReferer(headers: Headers, value: Option<string>): Headers {
    match value
    case Some(v) => headers[REFERER := [v]]
    case None => headers - {REFERER}
  }

  /** The headers carried from a request to the one that follows it, before its status is taken into account. */
  function Carried(w: World, cfg: Config, r: Request, next: Url): Headers {
    var h := RemoveSensitive(r.headers, next, [r.url]);
    if cfg.referer then SetReferer(h, MakeReferer(w.text, next, r.url)) else h
  }

  /** The request that follows a redirect, if the status is one that is followed and the body can be sent again. */
  function NextRequest(w: World, cfg: Config, r: Request, status: nat, next: Url): Option<Request> {
    var h := Carried(w, cfg, r, next);
    if DropsBody(status) then
      Some(Request(if TurnsToGet(status) then "GET" else r.method_, next, h - CONTENT, EMPTY))
    else if KeepsBody(status) && r.body.Bytes? then
      Some(Request(r.method_, next, h, r.body))
    else None
  }

  datatype Verdict = Finish | Fail | Panic | Send(next: Request)

  function Urls(sent: seq<Request>): seq<Url> {
    seq(|sent|, i requires 0 <= i < |sent| => sent[i].url)
  }

  /** What is done about a response to the last of the requests sent. */
  function Judge(w: World, cfg: Config, sent: seq<Request>, res: Response): Verdict
    requires sent != []
  {
    var r := sent[|sent| - 1];
    match NextUrl(w, r.url, res)
    case None => Finish
    case Some(next) =>
      match Check(cfg.policy, res.status, next, Urls(sent))
      case Error => Fail
      case Stop => Finish
      case Follow =>
        match NextRequest(w, cfg, r, res.status, next)
        case None => Finish
        case Some(r') => if Sendable(w, cfg, next) then Send(r') else Panic
  }

  // ----- runs -----

  function Through(sent: seq<Request>, i: nat): (r: seq<Request>)
    requires i < |sent|
    ensures r != []
  {
    sent[..i + 1]
  }

  /** The last request could be sent, and the server answered it. */
  predicate Answers(w: World, cfg: Config, sent: seq<Request>, res: Response)
    requires sent != []
  {
    Sendable(w, cfg, sent[|sent| - 1].url) && w.serve(sent) == Some(res)
  }

  /** The requests and responses of a run: each response is the server's, each further request what it called for. */
  ghost predicate IsRun(w: World, cfg: Config, sent: seq<Request>, seen: seq<Response>) {
    && sent != [] && |sent| - 1 <= |seen| <= |sent|
    && (forall i :: 0 <= i < |seen| ==> Answers(w, cfg, Through(sent, i), seen[i]))
    && (forall i :: 0 <= i < |sent| - 1 ==> Judge(w, cfg, Through(sent, i), seen[i]) == Send(sent[i + 1]))
  }

  // ----- the first request -----

  function FirstValue(pairs: seq<(string, string)>, name: string): Option<string> {
    if pairs == [] then None
    else if pairs[0].0 == name then Some(pairs[0].1)
    else FirstValue(pairs[1..], name)
  }

  /** The first value among pairs put one by one is not changed by a further pair. */
  lemma {:induction false} FirstValueSnoc(pairs: seq<(string, string)>, p: (string, string), name: string)
    ensures FirstValue(pairs + [p], name) ==
            if FirstValue(pairs, name).Some? then FirstValue(pairs, name)
            else if p.0 == name then Some(p.1) else None
  {
    if pairs == [] {
      assert pairs + [p] == [p];
      assert [p][1..] == [];
    } else {
      FirstValueSnoc(pairs[1..], p, name);
      assert (pairs + [p])[1..] == pairs[1..] + [p];
    }
  }

  function Lookup(h: Headers, name: string): (r: Option<seq<string>>)
    ensures r.Some? <==> name in h
    ensures r.Some? ==> r.value == h[name]
  {
    if name in h then Some(h[name]) else None
  }

  /** What the first request says under a name: the caller's values, else the first default, else the stored cookie. */
  function FirstHeader(headers: Headers, defaults: seq<(string, string)>, cookie: Option<string>, name: string): Option<seq<string>> {
    if name in headers then Some(headers[name])
    else if FirstValue(defaults, name).Some? then Some([FirstValue(defaults, name).value])
    else if name == "cookie" && cookie.Some? then Some([cookie.value])
    else None
  }

  lemma FirstHeaderSnoc(headers: Headers, pairs: seq<(string, string)>, p: (string, string), name: string)
    ensures FirstHeader(headers, pairs + [p], None, name) ==
            if name == p.0 && FirstHeader(headers, pairs, None, name).None? then Some([p.1])
            else FirstHeader(headers, pairs, None, name)
  {
    FirstValueSnoc(pairs, p, name);
  }

  /** The caller's values come first, then the first default, and then the stored cookie, under its own name only. */
  ghost predicate PreparedFrom(h: Headers, headers: Headers, defaults: seq<(string, string)>, cookie: Option<string>) {
    && (forall k :: k in headers ==> k in h && h[k] == headers[k])
    && (forall i :: 0 <= i < |defaults| && defaults[i].0 !in headers && IsFirst(defaults, i) ==>
          defaults[i].0 in h && h[defaults[i].0] == [defaults[i].1])
    && (forall k :: k !in headers && !Mentions(defaults, k) ==>
          if k == "cookie" && cookie.Some? then k in h && h[k] == [cookie.value] else k !in h)
  }

  ghost predicate IsFirst(pairs: seq<(string, string)>, i: nat)
    requires i < |pairs|
  {
    forall j :: 0 <= j < i ==> pairs[j].0 != pairs[i].0
  }

  ghost predicate Mentions(pairs: seq<(string, string)>, name: string) {
    exists i :: 0 <= i < |pairs| && pairs[i].0 == name
  }

  lemma {:induction false} FirstValueIs(pairs: seq<(string, string)>, i: nat)
    requires i < |pairs| && IsFirst(pairs, i)
    ensures FirstValue(pairs, pairs[i].0) == Some(pairs[i].1)
  {
    if i > 0 {
      assert pairs[0].0 != pairs[i].0;
      assert forall j :: 0 <= j < i - 1 ==> pairs[1..][j] == pairs[j + 1];
      FirstValueIs(pairs[1..], i - 1);
    }
  }

  lemma {:induction false} NoValue(pairs: seq<(string, string)>, name: string)
    ensures FirstValue(pairs, name).None? <==> !Mentions(pairs, name)
  {
    if pairs != [] {
      NoValue(pairs[1..], name);
      if i :| 0 <= i < |pairs[1..]| && pairs[1..][i].0 == name {
        assert pairs[i + 1].0 == name;
      }
      if i :| 0 <= i < |pairs| && pairs[i].0 == name && pairs[0].0 != name {
        assert pairs[1..][i - 1].0 == name;
      }
    }
  }

  lemma PreparedIs(h: Headers, headers: Headers, defaults: seq<(string, string)>, cookie: Option<string>)
    requires forall k :: Lookup(h, k) == FirstHeader(headers, defaults, cookie, k)
    ensures PreparedFrom(h, headers, defaults, cookie)
  {
    hide FirstValue, IsFirst, Mentions;
    forall i | 0 <= i < |defaults| && defaults[i].0 !in headers && IsFirst(defaults, i)
      ensures defaults[i].0 in h && h[defaults[i].0] == [defaults[i].1]
    {
      FirstValueIs(defaults, i);
      assert Lookup(h, defaults[i].0) == FirstHeader(headers, defaults, cookie, defaults[i].0);
    }
    forall k ensures (k in headers ==> k in h && h[k] == headers[k])
      && (k !in headers && !Mentions(defaults, k) ==>
            if k == "cookie" && cookie.Some? then k in h && h[k] == [cookie.value] else k !in h)
    {
      NoValue(defaults, k);
      assert Lookup(h, k) == FirstHeader(headers, defaults, cookie, k);
    }
  }

  /** Defaults are put in one by one where the name is still vacant, so of several values for a name only one is taken. */
  method PrepareHeaders(headers: Headers, defaults: seq<(string, string)>, cookie: Option<string>) returns (h: Headers)
    ensures forall k :: Lookup(h, k) == FirstHeader(headers, defaults, cookie, k)
    ensures PreparedFrom(h, headers, defaults, cookie)
  {
    h := headers;
    for i := 0 to |defaults|
      invariant forall k :: Lookup(h, k) == FirstHeader(headers, defaults[..i], None, k)
    {
      var p := defaults[i];
      ghost var before := h;
      assert defaults[..i + 1] == defaults[..i] + [p];
      if p.0 !in h {
        h := h[p.0 := [p.1]];
      }
      forall k ensures Lookup(h, k) == FirstHeader(headers, defaults[..i + 1], None, k) {
        FirstHeaderSnoc(headers, defaults[..i], p, k);
        assert Lookup(before, k) == FirstHeader(headers, defaults[..i], None, k);
        assert Lookup(before, p.0) == FirstHeader(headers, defaults[..i], None, p.0);
      }
    }
    assert defaults[..|defaults|] == defaults;
    assert Lookup(h, "cookie") == FirstHeader(headers, defaults, None, "cookie");
    ghost var before := h;
    if "cookie" !in h && cookie.Some? {
      h := h["cookie" := [cookie.value]];
    }
    forall k ensures Lookup(h, k) == FirstHeader(headers, defaults, cookie, k) {
      assert Lookup(before, k) == FirstHeader(headers, defaults, None, k);
    }
    PreparedIs(h, headers, defaults, cookie);
  }

  /** All the values defaults have for a name, in order. */
  function ValuesOf(pairs: seq<(string, string)>, name: string): seq<string> {
    if pairs == [] then []
    else (if pairs[0].0 == name then [pairs[0].1] else []) + ValuesOf(pairs[1..], name)
  }

  lemma {:induction false} FirstOfValues(pairs: seq<(string, string)>, name: string)
    ensures FirstValue(pairs, name) == if ValuesOf(pairs, name) == [] then None else Some(ValuesOf(pairs, name)[0])
  {
    if pairs != [] {
      FirstOfValues(pairs[1..], name);
    }
  }

  /** A name only the defaults have is sent with all their values if and only if there is just one. */
  lemma {:induction false} DefaultsSentWholeIff(headers: Headers, defaults: seq<(string, string)>, cookie: Option<string>, name: string)
    requires name !in headers && ValuesOf(defaults, name) != []
    ensures FirstHeader(headers, defaults, cookie, name) == Some(ValuesOf(defaults, name)) <==> |ValuesOf(defaults, name)| == 1
  {
    FirstOfValues(defaults, name);
    var values := ValuesOf(defaults, name);
    assert |values| == 1 ==> [values[0]] == values;
  }

  lemma SecondDefaultLost()
    ensures var defaults := [("accept", "a"), ("accept", "b")];
            FirstHeader(map[], defaults, None, "accept") == Some(["a"]) && ValuesOf(defaults, "accept") == ["a", "b"]
  {
    var defaults := [("accept", "a"), ("accept", "b")];
    assert defaults[1..] == [("accept", "b")] && defaults[1..][1..] == [];
    assert ValuesOf(defaults[1..], "accept") == ["b"];
    FirstOfValues(defaults, "accept");
  }

  // ----- the loop -----

  /** The run goes on with the request the last response called for. */
  lemma RunSends(w: World, cfg: Config, sent: seq<Request>, seen: seq<Response>, next: Request)
    requires IsRun(w, cfg, sent, seen) && |seen| == |sent|
    requires Judge(w, cfg, sent, seen[|seen| - 1]) == Send(next)
    ensures IsRun(w, cfg, sent + [next], seen)
  {
    hide Judge, Answers;
    forall i | 0 <= i < |sent| ensures Through(sent + [next], i) == Through(sent, i) {
    }
    assert Through(sent, |sent| - 1) == sent;
  }

  lemma RunSees(w: World, cfg: Config, sent: seq<Request>, seen: seq<Response>, res: Response)
    requires IsRun(w, cfg, sent, seen) && |seen| < |sent|
    requires Sendable(w, cfg, sent[|sent| - 1].url) && w.serve(sent) == Some(res)
    ensures IsRun(w, cfg, sent, seen + [res])
  {
    assert Answers(w, cfg, sent, res);
    hide Judge, Answers;
    assert Through(sent, |sent| - 1) == sent;
  }

  /** The loop's variables, kept in step with the last request. */
  ghost predicate InStep(r: Request, method_: string, url: Url, headers: Headers, backup: Option<BodyInner>) {
    r.method_ == method_ && r.url == url && r.headers == headers && TryClone(r.body) == backup
  }

  lemma UrlsSnoc(sent: seq<Request>, r: Request)
    ensures Urls(sent + [r]) == Urls(sent) + [r.url]
  {
  }

  /** The changes to the carried headers that come before the status is looked at. */
  method CarryHeaders(w: World, cfg: Config, ghost r: Request, headers: Headers, next: Url, previous: seq<Url>) returns (h: Headers)
    requires headers == r.headers && previous != [] && previous[|previous| - 1] == r.url
    ensures h == Carried(w, cfg, r, next)
  {
    h := RemoveSensitive(headers, next, previous);
    if cfg.referer {
      var referer := MakeReferer(w.text, next, previous[|previous| - 1]);
      if referer.Some? {
        h := h[REFERER := [referer.value]];
      } else {
        h := h - {REFERER};
      }
    }
  }

  method DropContent(headers: Headers) returns (h: Headers)
    ensures h == headers - CONTENT
  {
    h := headers - {"content-length"};
    h := h - {"content-type"};
    h := h - {"transfer-encoding"};
  }

  /**
    What the status of a followed redirect does to method, headers and body, and the body to send. There is always a
    copy of the backup to send, so the empty body never stands in for one that could not be copied.
  */
  method ApplyStatus(status: nat, method_: string, headers: Headers, backup: Option<BodyInner>)
    returns (followed: bool, m: string, h: Headers, b: Option<BodyInner>, sendBody: BodyInner)
    requires backup.Some? ==> backup.value.Bytes?
    ensures followed <==> DropsBody(status) || (KeepsBody(status) && backup.Some?)
    ensures m == if TurnsToGet(status) then "GET" else method_
    ensures h == if DropsBody(status) then headers - CONTENT else headers
    ensures b == if DropsBody(status) then Some(EMPTY) else backup
    ensures followed ==> b == Some(sendBody) && TryClone(sendBody) == b
  {
    followed, m, h, b, sendBody := true, method_, headers, backup, EMPTY;
    if status == 301 || status == 302 || status == 303 {
      if status == 301 || status == 302 {
        m := "GET";
      }
      b := Some(EMPTY);
      h := DropContent(h);
    } else if status == 307 || status == 308 {
      if b.None? {
        followed := false;
      }
    } else {
      followed := false;
    }
    if followed {
      var copy := TryClone(b.value);
      sendBody := if copy.Some? then copy.value else EMPTY;
    }
  }

  /** Updates the loop's variables for a redirect that is followed and makes the next request out of them. */
  method PrepareNext(w: World, cfg: Config, ghost last: Request, status: nat, next: Url, previous: seq<Url>,
                     method_: string, headers: Headers, backup: Option<BodyInner>)
    returns (request: Option<Request>, m: string, h: Headers, b: Option<BodyInner>)
    requires InStep(last, method_, last.url, headers, backup) && previous != [] && previous[|previous| - 1] == last.url
    ensures request == NextRequest(w, cfg, last, status, next)
    ensures request.Some? ==> InStep(request.value, m, next, h, b) && request.value.url == next
  {
    hide Carried, TurnsToGet, KeepsBody;
    h := CarryHeaders(w, cfg, last, headers, next, previous);
    var followed, sendBody;
    followed, m, h, b, sendBody := ApplyStatus(status, method_, h, backup);
    request := if followed then Some(Request(m, next, h, sendBody)) else None;
  }

  /** What one round of the loop makes of a response, and of its variables: the verdict on it, carried out. */
  method TakeResponse(w: World, cfg: Config, ghost sent: seq<Request>, res: Response, url: Url, previous: seq<Url>,
                      method_: string, headers: Headers, backup: Option<BodyInner>)
    returns (verdict: Verdict, nextUrl: Url, prevUrls: seq<Url>, m: string, h: Headers, b: Option<BodyInner>)
    requires sent != [] && previous + [url] == Urls(sent)
    requires InStep(sent[|sent| - 1], method_, url, headers, backup) && sent[|sent| - 1].url == url
    ensures verdict == Judge(w, cfg, sent, res)
    ensures verdict.Send? ==>
              && InStep(verdict.next, m, nextUrl, h, b) && verdict.next.url == nextUrl
              && prevUrls + [nextUrl] == Urls(sent + [verdict.next])
              && Sendable(w, cfg, nextUrl)
  {
    hide Judge, NextRequest, Urls, Check, IsRedirection, Sendable, InStep;
    JudgeNext(w, cfg, sent, res);
    verdict, nextUrl, prevUrls, m, h, b := Finish, url, previous, method_, headers, backup;
    if !IsRedirection(res.status) {
      return;
    }
    if res.location.None? {
      return;
    }
    var joined := w.join(url, res.location.value);
    if joined.None? {
      return;
    }
    prevUrls := previous + [url];
    var action := Check(cfg.policy, res.status, joined.value, prevUrls);
    nextUrl := joined.value;
    match action {
      case Stop => return;
      case Error => verdict := Fail;
      case Follow =>
        var next;
        next, m, h, b := PrepareNext(w, cfg, sent[|sent| - 1], res.status, nextUrl, prevUrls, method_, headers, backup);
        if next.Some? {
          if Sendable(w, cfg, nextUrl) {
            UrlsSnoc(sent, next.value);
            verdict := Send(next.value);
          } else {
            verdict := Panic;
          }
        }
    }
  }

  /** Sends a further request of a run. */
  method SendNext(w: World, cfg: Config, before: seq<Request>, answers: seq<Response>, next: Request)
    returns (reply: Option<Response>, sent: seq<Request>, seen: seq<Response>)
    requires IsRun(w, cfg, before, answers) && |answers| == |before| > 0 && Sendable(w, cfg, next.url)
    requires Judge(w, cfg, before, answers[|answers| - 1]) == Send(next)
    ensures IsRun(w, cfg, sent, seen) && sent == before + [next] && sent[0] == before[0] && sent[|sent| - 1] == next
    ensures reply == w.serve(sent)
    ensures seen == answers + (if reply.Some? then [reply.value] else [])
    ensures reply.Some? ==> |seen| == |sent| && seen[|seen| - 1] == reply.value
  {
    hide IsRun, Judge, Sendable;
    RunSends(w, cfg, before, answers, next);
    sent, seen := before + [next], answers;
    reply := w.serve(sent);
    if reply.Some? {
      RunSees(w, cfg, sent, seen, reply.value);
      seen := seen + [reply.value];
    }
  }

  /**
    Sends the first request and follows redirects, at most `rounds` of them: a run that would go on after that is
    reported as still redirecting. A first URL that cannot be sent is a panic before anything is sent.
  */
  method ExecuteImpl(w: World, cfg: Config, first: Request, rounds: nat)
    returns (outcome: Outcome, sent: seq<Request>, seen: seq<Response>)
    ensures IsRun(w, cfg, sent, seen) && sent[0] == first
    ensures |seen| < |sent| ==> outcome == if Sendable(w, cfg, sent[|sent| - 1].url) then SendFailed else Panicked
    ensures |seen| < |sent| && outcome.Panicked? ==> sent == [first]
    ensures outcome.SendFailed? ==> |seen| < |sent| && w.serve(sent).None?
    ensures |seen| == |sent| ==>
              outcome == match Judge(w, cfg, sent, seen[|seen| - 1])
                         case Finish => Returned(seen[|seen| - 1])
                         case Fail => TooManyRedirects
                         case Panic => Panicked
                         case Send(_) => StillRedirecting
    ensures outcome.StillRedirecting? ==> |sent| == rounds + 1
    ensures cfg.policy.Limit? && rounds >= cfg.policy.max ==> !outcome.StillRedirecting?
  {
    hide IsRun, Judge, Urls, Sendable, InStep, TryClone;
    var method_ := first.method_;
    var bodyBackup := TryClone(first.body);
    var redirectHeaders := first.headers;

    sent, seen := [first], [];
    RunStarts(w, cfg, first);
    if !Sendable(w, cfg, first.url) {
      return Panicked, sent, seen;
    }
    var reply := w.serve(sent);
    if reply.None? {
      return SendFailed, sent, seen;
    }
    var res := reply.value;
    RunSees(w, cfg, sent, seen, res);
    seen := seen + [res];

    var currentUrl := first.url;
    var prevUrls: seq<Url> := [];
    while true
      invariant 0 < |sent| == |seen| <= rounds + 1
      invariant IsRun(w, cfg, sent, seen) && sent[0] == first && res == seen[|seen| - 1]
      invariant InStep(sent[|sent| - 1], method_, currentUrl, redirectHeaders, bodyBackup) && sent[|sent| - 1].url == currentUrl
      invariant prevUrls + [currentUrl] == Urls(sent)
      decreases rounds + 1 - |sent|
    {
      var verdict;
      verdict, currentUrl, prevUrls, method_, redirectHeaders, bodyBackup :=
        TakeResponse(w, cfg, sent, res, currentUrl, prevUrls, method_, redirectHeaders, bodyBackup);
      match verdict {
        case Finish => return Returned(res), sent, seen;
        case Fail => return TooManyRedirects, sent, seen;
        case Panic => return Panicked, sent, seen;
        case Send(request) =>
          if |sent| > rounds {
            SendsWithinLimit(w, cfg, sent, seen);
            return StillRedirecting, sent, seen;
          }
          reply, sent, seen := SendNext(w, cfg, sent, seen, request);
          if reply.None? {
            return SendFailed, sent, seen;
          }
          res := reply.value;
      }
    }
  }

  lemma RunStarts(w: World, cfg: Config, first: Request)
    ensures IsRun(w, cfg, [first], []) && Urls([first]) == [] + [first.url]
    ensures InStep(first, first.method_, first.url, first.headers, TryClone(first.body))
  {
  }

  /** The verdict spelled out over the next URL. */
  lemma JudgeNext(w: World, cfg: Config, sent: seq<Request>, res: Response)
    requires sent != []
    ensures var r := sent[|sent| - 1];
            Judge(w, cfg, sent, res) ==
            match NextUrl(w, r.url, res)
            case None => Finish
            case Some(next) =>
              match Check(cfg.policy, res.status, next, Urls(sent))
              case Error => Fail
              case Stop => Finish
              case Follow =>
                match NextRequest(w, cfg, r, res.status, next)
                case None => Finish
                case Some(r') => if Sendable(w, cfg, next) then Send(r') else Panic
  {
  }

  /** Under a limit, a redirect is followed only if no more than that many have been. */
  lemma SendsWithinLimit(w: World, cfg: Config, sent: seq<Request>, seen: seq<Response>)
    requires IsRun(w, cfg, sent, seen) && |seen| == |sent| && Judge(w, cfg, sent, seen[|seen| - 1]).Send?
    ensures cfg.policy.Limit? ==> |sent| <= cfg.policy.max
  {
    hide NextRequest, NextUrl;
  }
}
