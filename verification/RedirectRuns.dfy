/** What holds of every run of the redirect loop, against any server and however it ends. */
module RedirectRuns {
  import opened Prelude
  import opened BodyStream
  import opened Redirect
  import opened RedirectEngine

  /** Each further request of a run answers the response before it. */
  lemma Hop(w: World, cfg: Config, sent: seq<Request>, seen: seq<Response>, i: nat)
    requires IsRun(w, cfg, sent, seen) && i + 1 < |sent|
    ensures var r, r', status := sent[i], sent[i + 1], seen[i].status;
            && NextUrl(w, r.url, seen[i]) == Some(r'.url)
            && Check(cfg.policy, status, r'.url, Urls(Through(sent, i))) == Follow
            && NextRequest(w, cfg, r, status, r'.url) == Some(r')
            && Sendable(w, cfg, r'.url)
  {
    hide NextUrl, Carried;
    assert Judge(w, cfg, Through(sent, i), seen[i]) == Send(sent[i + 1]);
    var before := Through(sent, i);
    assert before[|before| - 1] == sent[i];
  }

  /** The port a URL is requested at: its own, or the default of its scheme. */
  predicate HasPort(u: Url, n: nat) {
    || u.port == Some(n)
    || (u.port.None? && u.scheme in {"http", "ws"} && n == 80)
    || (u.port.None? && u.scheme in {"https", "wss"} && n == 443)
    || (u.port.None? && u.scheme == "ftp" && n == 21)
  }

  /** The rule on credentials compares hosts and these ports, and nothing else. */
  lemma SameOriginIs(a: Url, b: Url)
    ensures SameOrigin(a, b) <==> a.host == b.host && forall n :: HasPort(a, n) <==> HasPort(b, n)
  {
    PortIs(a);
    PortIs(b);
    var p, q := PortOrKnownDefault(a), PortOrKnownDefault(b);
    if p.Some? {
      assert HasPort(a, p.value);
    }
    if q.Some? {
      assert HasPort(b, q.value);
    }
  }

  lemma PortIs(u: Url)
    ensures forall n: nat :: PortOrKnownDefault(u) == Some(n) <==> HasPort(u, n)
  {
  }

  /** A response has a next URL if it is of the 3xx kind and its location can be resolved. */
  lemma NextUrlIs(w: World, url: Url, res: Response, next: Url)
    ensures NextUrl(w, url, res) == Some(next) <==>
            300 <= res.status <= 399 && res.location.Some? && w.join(url, res.location.value) == Some(next)
  {
  }

  /** Every request after the first answers a response with one of five statuses, at the URL its location resolves to. */
  lemma FollowedResponses(w: World, cfg: Config, sent: seq<Request>, seen: seq<Response>, i: nat)
    requires IsRun(w, cfg, sent, seen) && i + 1 < |sent|
    ensures seen[i].status in {301, 302, 303, 307, 308} && seen[i].location.Some?
    ensures w.join(sent[i].url, seen[i].location.value) == Some(sent[i + 1].url) && w.isUri(sent[i + 1].url)
    ensures cfg.policy.Custom? ==> cfg.policy.decide(seen[i].status, sent[i + 1].url, Urls(sent[..i + 1])) == Follow
  {
    hide IsRun, NextUrl;
    RunLengths(w, cfg, sent, seen);
    Hop(w, cfg, sent, seen, i);
    NextUrlIs(w, sent[i].url, seen[i], sent[i + 1].url);
  }

  ghost predicate Turned(seen: seq<Response>, k: nat)
    requires k <= |seen|
  {
    exists j :: 0 <= j < k && seen[j].status in {301, 302}
  }

  ghost predicate Dropped(seen: seq<Response>, k: nat)
    requires k <= |seen|
  {
    exists j :: 0 <= j < k && seen[j].status in {301, 302, 303}
  }

  /** Some hop so far has left the host and port it came from. */
  ghost predicate Crossed(sent: seq<Request>, k: nat)
    requires k < |sent|
  {
    exists j :: 1 <= j <= k && !SameOrigin(sent[j].url, sent[j - 1].url)
  }

  lemma RunLengths(w: World, cfg: Config, sent: seq<Request>, seen: seq<Response>)
    requires IsRun(w, cfg, sent, seen)
    ensures sent != [] && |sent| - 1 <= |seen| <= |sent|
  {
  }

  lemma NothingBeforeFirst(sent: seq<Request>, seen: seq<Response>)
    requires sent != []
    ensures !Turned(seen, 0) && !Dropped(seen, 0) && !Crossed(sent, 0)
  {
  }

  lemma TurnedStep(seen: seq<Response>, k: nat)
    requires 0 < k <= |seen|
    ensures Turned(seen, k) <==> Turned(seen, k - 1) || TurnsToGet(seen[k - 1].status)
  {
  }

  lemma DroppedStep(seen: seq<Response>, k: nat)
    requires 0 < k <= |seen|
    ensures Dropped(seen, k) <==> Dropped(seen, k - 1) || DropsBody(seen[k - 1].status)
  {
  }

  lemma CrossedStep(sent: seq<Request>, k: nat)
    requires 0 < k < |sent|
    ensures Crossed(sent, k) <==> Crossed(sent, k - 1) || !SameOrigin(sent[k].url, sent[k - 1].url)
  {
    hide SameOrigin;
  }

  /** The method is GET once a 301 or 302 has been followed, and until then the original one. */
  lemma {:induction false} MethodOverRun(w: World, cfg: Config, sent: seq<Request>, seen: seq<Response>, k: nat)
    requires IsRun(w, cfg, sent, seen) && k < |sent|
    ensures sent[k].method_ == if Turned(seen, k) then "GET" else sent[0].method_
  {
    hide IsRun, Carried, Turned, TurnsToGet;
    RunLengths(w, cfg, sent, seen);
    if k == 0 {
      NothingBeforeFirst(sent, seen);
    } else {
      MethodOverRun(w, cfg, sent, seen, k - 1);
      Hop(w, cfg, sent, seen, k - 1);
      TurnedStep(seen, k);
    }
  }

  /**
    The body is empty once a 301, 302 or 303 has been followed; until then it is the original one, which after the
    first request can only be one held in memory. So a stream is sent at most once.
  */
  lemma {:induction false} BodyOverRun(w: World, cfg: Config, sent: seq<Request>, seen: seq<Response>, k: nat)
    requires IsRun(w, cfg, sent, seen) && k < |sent|
    ensures sent[k].body == if Dropped(seen, k) then Bytes([]) else sent[0].body
    ensures k > 0 ==> sent[k].body.Bytes?
  {
    hide IsRun, Carried, TurnsToGet, Dropped;
    RunLengths(w, cfg, sent, seen);
    if k == 0 {
      NothingBeforeFirst(sent, seen);
    } else {
      BodyOverRun(w, cfg, sent, seen, k - 1);
      Hop(w, cfg, sent, seen, k - 1);
      DroppedStep(seen, k);
    }
  }

  lemma CarriedLookup(w: World, cfg: Config, r: Request, next: Url, name: string)
    requires name != REFERER
    ensures Lookup(Carried(w, cfg, r, next), name) ==
            if name in SENSITIVE && !SameOrigin(next, r.url) then None else Lookup(r.headers, name)
  {
    hide SameOrigin, MakeReferer;
  }

  lemma NextLookup(w: World, cfg: Config, r: Request, status: nat, next: Url, name: string)
    requires name != REFERER && NextRequest(w, cfg, r, status, next).Some?
    ensures Lookup(NextRequest(w, cfg, r, status, next).value.headers, name) ==
            if (name in SENSITIVE && !SameOrigin(next, r.url)) || (name in CONTENT && DropsBody(status)) then None
            else Lookup(r.headers, name)
  {
    hide SameOrigin, Carried;
    CarriedLookup(w, cfg, r, next, name);
  }

  /**
    Of the first request's headers other than Referer, a later request carries each unchanged, except the credentials
    once a hop has left its host and port, and the content fields once the body has been dropped. It carries no others.
  */
  lemma {:induction false} HeadersOverRun(w: World, cfg: Config, sent: seq<Request>, seen: seq<Response>, k: nat, name: string)
    requires IsRun(w, cfg, sent, seen) && k < |sent| && name != "referer"
    ensures Lookup(sent[k].headers, name) ==
            if (name in {"authorization", "cookie", "cookie2", "proxy-authorization", "www-authenticate"} && Crossed(sent, k))
            || (name in {"content-length", "content-type", "transfer-encoding"} && Dropped(seen, k)) then None
            else Lookup(sent[0].headers, name)
  {
    hide IsRun, NextRequest, SameOrigin, DropsBody, Dropped, Crossed;
    RunLengths(w, cfg, sent, seen);
    if k == 0 {
      NothingBeforeFirst(sent, seen);
    } else {
      HeadersOverRun(w, cfg, sent, seen, k - 1, name);
      Hop(w, cfg, sent, seen, k - 1);
      NextLookup(w, cfg, sent[k - 1], seen[k - 1].status, sent[k].url, name);
      DroppedStep(seen, k);
      CrossedStep(sent, k);
    }
  }

  lemma {:induction false} UncrossedSameOrigin(sent: seq<Request>, k: nat)
    requires k < |sent| && !Crossed(sent, k)
    ensures forall j :: 0 <= j <= k ==> SameOrigin(sent[j].url, sent[0].url)
  {
    if k > 0 {
      UncrossedSameOrigin(sent, k - 1);
      assert SameOrigin(sent[k].url, sent[k - 1].url);
      assert SameOrigin(sent[k - 1].url, sent[0].url);
    }
  }

  /** Credentials are carried into a request only if everything requested so far was on one host and port. */
  lemma CredentialsStayHome(w: World, cfg: Config, sent: seq<Request>, seen: seq<Response>, k: nat, name: string)
    requires IsRun(w, cfg, sent, seen) && k < |sent| && name in sent[k].headers
    requires name in {"authorization", "cookie", "cookie2", "proxy-authorization", "www-authenticate"}
    ensures forall j :: 0 <= j <= k ==>
              sent[j].url.host == sent[0].url.host && forall n :: HasPort(sent[j].url, n) <==> HasPort(sent[0].url, n)
    ensures name in sent[0].headers && sent[k].headers[name] == sent[0].headers[name]
  {
    hide IsRun;
    HeadersOverRun(w, cfg, sent, seen, k, name);
    UncrossedSameOrigin(sent, k);
    forall j | 0 <= j <= k
      ensures sent[j].url.host == sent[0].url.host && forall n :: HasPort(sent[j].url, n) <==> HasPort(sent[0].url, n)
    {
      SameOriginIs(sent[j].url, sent[0].url);
    }
  }

  /** The Referer of a followed request is made from the request right before it, or is left as it was. */
  lemma {:induction false} RefererOverRun(w: World, cfg: Config, sent: seq<Request>, seen: seq<Response>, k: nat)
    requires IsRun(w, cfg, sent, seen) && 0 < k < |sent|
    ensures Lookup(sent[k].headers, REFERER) ==
            if cfg.referer then
              (match MakeReferer(w.text, sent[k].url, sent[k - 1].url) case None => None case Some(v) => Some([v]))
            else Lookup(sent[0].headers, REFERER)
  {
    hide IsRun, MakeReferer, SameOrigin;
    Hop(w, cfg, sent, seen, k - 1);
    assert REFERER !in SENSITIVE && REFERER !in CONTENT;
    if k > 1 && !cfg.referer {
      RefererOverRun(w, cfg, sent, seen, k - 1);
    }
  }

  /** From https to http there is no Referer; otherwise it shows the previous URL without credentials and fragment. */
  lemma RefererShows(w: World, cfg: Config, sent: seq<Request>, seen: seq<Response>, k: nat)
    requires IsRun(w, cfg, sent, seen) && 0 < k < |sent| && cfg.referer
    ensures "referer" in sent[k].headers <==>
            && !(sent[k - 1].url.scheme == "https" && sent[k].url.scheme == "http")
            && exists shown: Url :: shown == sent[k - 1].url.(username := "", password := None, fragment := None) && w.text(shown).Some?
    ensures "referer" in sent[k].headers ==>
              exists shown: Url :: shown == sent[k - 1].url.(username := "", password := None, fragment := None)
                && w.text(shown).Some? && sent[k].headers["referer"] == [w.text(shown).value]
  {
    hide IsRun, SameOrigin;
    RefererOverRun(w, cfg, sent, seen, k);
    var shown := ForReferer(sent[k - 1].url);
    assert REFERER in sent[k].headers ==> w.text(shown).Some? && sent[k].headers[REFERER] == [w.text(shown).value];
  }

  /** With a limit of n at most n + 1 requests are sent, and with redirects off only one. */
  lemma RedirectBound(w: World, cfg: Config, sent: seq<Request>, seen: seq<Response>)
    requires IsRun(w, cfg, sent, seen)
    ensures cfg.policy.Limit? ==> |sent| <= cfg.policy.max + 1
    ensures cfg.policy.NoRedirects? ==> |sent| == 1
  {
    hide NextRequest, NextUrl;
    if |sent| > 1 {
      Hop(w, cfg, sent, seen, |sent| - 2);
      assert |Urls(Through(sent, |sent| - 2))| == |sent| - 1;
    }
  }

  /** With redirects off every response is returned; a caller's own rule gets the status, the next URL and all before it. */
  lemma PoliciesDecide(w: World, cfg: Config, sent: seq<Request>, seen: seq<Response>)
    requires IsRun(w, cfg, sent, seen) && |seen| == |sent|
    ensures var res := seen[|seen| - 1];
            var next, verdict := NextUrl(w, sent[|sent| - 1].url, res), Judge(w, cfg, sent, res);
            && (cfg.policy.NoRedirects? ==> verdict.Finish?)
            && (cfg.policy.Custom? && next.Some? ==>
                  var action := cfg.policy.decide(res.status, next.value, Urls(sent));
                  && (action == Error <==> verdict.Fail?)
                  && (action == Stop ==> verdict.Finish?)
                  && (action == Follow && Followable(sent, res) ==> verdict.Send? || verdict.Panic?))
  {
    hide NextUrl, IsRun, Judge, Followable;
    RunLengths(w, cfg, sent, seen);
    JudgedByFollowable(w, cfg, sent, seen);
    EndsWithoutFollowing(w, cfg, sent, seen);
  }

  /** The redirect error comes exactly when the limit has been used up and a further usable redirect arrives. */
  lemma FailsExactlyAtLimit(w: World, cfg: Config, sent: seq<Request>, seen: seq<Response>)
    requires IsRun(w, cfg, sent, seen) && |seen| == |sent| && cfg.policy.Limit?
    ensures Judge(w, cfg, sent, seen[|seen| - 1]).Fail? <==>
            |sent| == cfg.policy.max + 1 && NextUrl(w, sent[|sent| - 1].url, seen[|seen| - 1]).Some?
  {
    hide NextRequest, NextUrl;
    RedirectBound(w, cfg, sent, seen);
  }

  /** The response asks for a redirect the loop can follow: a status that is followed, and no stream to send again. */
  predicate Followable(sent: seq<Request>, res: Response)
    requires sent != []
  {
    res.status in {301, 302, 303} || (res.status in {307, 308} && !(|sent| == 1 && sent[0].body.Stream?))
  }

  /** The response leads to a next URL which the policy lets the loop follow. */
  predicate Allowed(w: World, cfg: Config, sent: seq<Request>, res: Response)
    requires sent != []
  {
    var next := NextUrl(w, sent[|sent| - 1].url, res);
    next.Some? && Check(cfg.policy, res.status, next.value, Urls(sent)) == Follow
  }

  /** What is made of the last response of a run, in terms of the responses and requests alone, under any policy. */
  lemma {:induction false} JudgedByFollowable(w: World, cfg: Config, sent: seq<Request>, seen: seq<Response>)
    requires IsRun(w, cfg, sent, seen) && |seen| == |sent|
    ensures var res := seen[|seen| - 1];
            var next, verdict := NextUrl(w, sent[|sent| - 1].url, res), Judge(w, cfg, sent, res);
            && (verdict.Fail? <==> next.Some? && Check(cfg.policy, res.status, next.value, Urls(sent)) == Error)
            && (verdict.Send? || verdict.Panic? <==> Allowed(w, cfg, sent, res) && Followable(sent, res))
            && (verdict.Panic? ==> !Sendable(w, cfg, next.value))
            && (verdict.Send? ==> verdict.next.url == next.value && Sendable(w, cfg, next.value))
  {
    hide NextUrl, Carried, IsRun, Dropped, Check, Sendable;
    RunLengths(w, cfg, sent, seen);
    if |sent| > 1 {
      BodyOverRun(w, cfg, sent, seen, |sent| - 1);
    }
  }

  /**
    A run ends with its last response exactly when that has no usable location, the policy stops there, the status is
    not one to follow, or a stream would have to be sent again.
  */
  lemma {:induction false} EndsWithoutFollowing(w: World, cfg: Config, sent: seq<Request>, seen: seq<Response>)
    requires IsRun(w, cfg, sent, seen) && |seen| == |sent|
    ensures var res := seen[|seen| - 1];
            var next := NextUrl(w, sent[|sent| - 1].url, res);
            Judge(w, cfg, sent, res).Finish? <==>
            || next.None?
            || Check(cfg.policy, res.status, next.value, Urls(sent)) == Stop
            || (Allowed(w, cfg, sent, res) && !Followable(sent, res))
  {
    hide NextUrl, IsRun, Check, Judge, Followable;
    RunLengths(w, cfg, sent, seen);
    JudgedByFollowable(w, cfg, sent, seen);
  }

  /** The loop panics exactly when a redirect it would otherwise follow leads to a URL on which sending panics. */
  lemma {:induction false} PanicsExactly(w: World, cfg: Config, sent: seq<Request>, seen: seq<Response>)
    requires IsRun(w, cfg, sent, seen) && |seen| == |sent|
    ensures var res := seen[|seen| - 1];
            Judge(w, cfg, sent, res).Panic? <==>
            && Allowed(w, cfg, sent, res) && Followable(sent, res)
            && var next := NextUrl(w, sent[|sent| - 1].url, res).value; !w.isUri(next) || (cfg.altSvc && next.host.None?)
  {
    hide NextUrl, IsRun, Check, Judge, Followable;
    RunLengths(w, cfg, sent, seen);
    JudgedByFollowable(w, cfg, sent, seen);
  }

  /**
    The response on which the limit is exceeded would have been followed, had the limit been higher, if and only if it
    is followable; otherwise it would have been returned.
  */
  lemma FailureHidesResponse(w: World, cfg: Config, sent: seq<Request>, seen: seq<Response>)
    requires IsRun(w, cfg, sent, seen) && |seen| == |sent| && cfg.policy.Limit?
    requires Judge(w, cfg, sent, seen[|seen| - 1]).Fail?
    ensures var higher := Judge(w, cfg.(policy := Limit(|sent|)), sent, seen[|seen| - 1]);
            && (higher.Finish? <==> !Followable(sent, seen[|seen| - 1]))
            && !higher.Fail?
  {
    hide NextUrl, Carried, IsRun, Dropped;
    RunLengths(w, cfg, sent, seen);
    if |sent| > 1 {
      BodyOverRun(w, cfg, sent, seen, |sent| - 1);
    }
  }

  /** A 304 with a location is the redirect error under a limit of none, and is returned under a limit of one. */
  lemma NotModifiedAtLimit(first: Request, referer: bool)
    ensures var res := Response(304, Some("/"));
            var w := World(_ => Some(res), (u, _) => Some(u), _ => None, _ => true);
            && IsRun(w, Config(Limit(0), referer, false), [first], [res])
            && Judge(w, Config(Limit(0), referer, false), [first], res) == Fail
            && Judge(w, Config(Limit(1), referer, false), [first], res) == Finish
  {
  }

  /** A run whose first URL can be sent, and whose first redirect leads to a URL that is no URI. */
  lemma PanicOnNoUri(first: Request, bad: Url, cfg: Config)
    requires bad != first.url && first.url.host.Some? && cfg.policy == Limit(10)
    ensures var res := Response(302, Some("/"));
            var w := World(_ => Some(res), (_, _) => Some(bad), _ => None, u => u != bad);
            Sendable(w, cfg, first.url) && IsRun(w, cfg, [first], [res]) && Judge(w, cfg, [first], res) == Panic
  {
  }

  const MAIL: Url := UrlParts("mailto", "", None, None, None, "x@y", None, None)

  /** A redirect to a URL that has no host: sent on as such, but a panic when known hosts are looked up. */
  lemma PanicOnNoHost(first: Request, referer: bool)
    requires first.url.host.Some?
    ensures var res := Response(302, Some("mailto:x@y"));
            var w := World(_ => Some(res), (_, _) => Some(MAIL), _ => None, _ => true);
            var cfg := Config(Limit(10), referer, true);
            && Sendable(w, cfg, first.url) && IsRun(w, cfg, [first], [res]) && Judge(w, cfg, [first], res) == Panic
            && Judge(w, cfg.(altSvc := false), [first], res).Send?
  {
  }

  /** Two runs from one first request against one world are the same run as far as both go. */
  lemma {:induction false} RunsAgree(w: World, cfg: Config, sent: seq<Request>, seen: seq<Response>,
                                     sent': seq<Request>, seen': seq<Response>, k: nat)
    requires IsRun(w, cfg, sent, seen) && IsRun(w, cfg, sent', seen') && sent[0] == sent'[0]
    requires k < |sent| && k < |sent'|
    ensures Through(sent, k) == Through(sent', k)
    ensures k < |seen| && k < |seen'| ==> seen[k] == seen'[k]
  {
    hide Judge, IsRun, Answers;
    RunLengths(w, cfg, sent, seen);
    RunLengths(w, cfg, sent', seen');
    if k > 0 {
      RunsAgree(w, cfg, sent, seen, sent', seen', k - 1);
      RoundOfRun(w, cfg, sent, seen, k - 1);
      RoundOfRun(w, cfg, sent', seen', k - 1);
      assert Through(sent, k) == Through(sent, k - 1) + [sent[k]];
      assert Through(sent', k) == Through(sent', k - 1) + [sent'[k]];
    }
    if k < |seen| && k < |seen'| {
      RoundOfRun(w, cfg, sent, seen, k);
      RoundOfRun(w, cfg, sent', seen', k);
    }
  }

  lemma RoundOfRun(w: World, cfg: Config, sent: seq<Request>, seen: seq<Response>, k: nat)
    requires IsRun(w, cfg, sent, seen) && k < |seen|
    ensures k < |sent| && w.serve(Through(sent, k)) == Some(seen[k])
    ensures k + 1 < |sent| ==> Judge(w, cfg, Through(sent, k), seen[k]) == Send(sent[k + 1])
  {
    hide Judge;
    assert Answers(w, cfg, Through(sent, k), seen[k]);
  }
}
