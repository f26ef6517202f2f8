/** The cache of hosts known to speak HTTP/3 (`KnownHosts` in `cyper/src/altsvc.rs`), and what it answers over any history. */
module KnownHosts {
  import opened Prelude
  import opened AltSvc

  /** Instants are counted in nanoseconds; an interval that would be negative is zero. */
  type Instant = nat

  const NANOS: nat := 1_000_000_000

  const DAY: nat := 86400

  function ElapsedSeconds(since: Instant, now: Instant): nat {
    if now <= since then 0 else (now - since) / NANOS
  }

  datatype HostEntry = HostEntry(insertTime: Instant, maxAge: nat)

  /** Only HTTP/3 on the same host and the default port is of use. */
  predicate Accepts(host: string, srv: Service) {
    srv.id == "h3" && (srv.host == "" || srv.host == host) && srv.port == 443
  }

  function EntryFor(srv: Service, now: Instant): HostEntry {
    HostEntry(now, if srv.maxAge.Some? then srv.maxAge.value else DAY)
  }

  predicate Fresh(e: HostEntry, now: Instant) {
    ElapsedSeconds(e.insertTime, now) <= e.maxAge
  }

  /** The services of a response in their order, up to the first that is accepted. */
  function FirstAccepted(host: string, list: seq<Service>): Option<Service> {
    if list == [] then None
    else if Accepts(host, list[0]) then Some(list[0])
    else FirstAccepted(host, list[1..])
  }

  // ----- histories -----

  datatype Event =
    | Inserted(host: string, srv: Service, at: Instant)
    | Looked(host: string, at: Instant)
    | Cleared(host: string, at: Instant)

  /** What one call does to the cache. */
  function Apply(m: map<string, HostEntry>, e: Event): map<string, HostEntry> {
    match e
    case Inserted(host, srv, at) => if Accepts(host, srv) then m[host := EntryFor(srv, at)] else m
    case Looked(host, at) => if host in m && !Fresh(m[host], at) then m - {host} else m
    case Cleared(host, _) => m - {host}
  }

  function Run(events: seq<Event>): map<string, HostEntry> {
    if events == [] then map[]
    else Apply(Run(events[..|events| - 1]), events[|events| - 1])
  }

  function Answer(m: map<string, HostEntry>, host: string, now: Instant): bool {
    host in m && Fresh(m[host], now)
  }

  /** The last accepted insertion for the host since its last clearing, whatever was looked up in between. */
  function LastInsertion(events: seq<Event>, host: string): Option<HostEntry> {
    if events == [] then None
    else
      var before := events[..|events| - 1];
      match events[|events| - 1]
      case Inserted(h, srv, at) =>
        if h == host && Accepts(host, srv) then Some(EntryFor(srv, at)) else LastInsertion(before, host)
      case Cleared(h, _) => if h == host then None else LastInsertion(before, host)
      case Looked(_, _) => LastInsertion(before, host)
  }

  ghost predicate ClockForward(events: seq<Event>, now: Instant) {
    && (forall i, j :: 0 <= i < j < |events| ==> events[i].at <= events[j].at)
    && (forall i :: 0 <= i < |events| ==> events[i].at <= now)
  }

  lemma StaleStaysStale(e: HostEntry, t: Instant, now: Instant)
    requires !Fresh(e, t) && t <= now
    ensures !Fresh(e, now)
  {
    assert (t - e.insertTime) / NANOS <= (now - e.insertTime) / NANOS;
  }

  /** An entry is the host's last insertion; one that was evicted had expired by the latest event. */
  lemma {:induction false} CacheIsLastInsertion(events: seq<Event>, host: string, now: Instant)
    requires ClockForward(events, now)
    ensures host in Run(events) ==> LastInsertion(events, host) == Some(Run(events)[host])
    ensures host !in Run(events) && LastInsertion(events, host).Some? ==> !Fresh(LastInsertion(events, host).value, now)
  {
    if events != [] {
      var before, last := events[..|events| - 1], events[|events| - 1];
      assert forall i :: 0 <= i < |before| ==> before[i] == events[i];
      CacheIsLastInsertion(before, host, last.at);
      if host !in Run(events) && LastInsertion(before, host).Some? {
        if !Fresh(LastInsertion(before, host).value, last.at) {
          StaleStaysStale(LastInsertion(before, host).value, last.at, now);
        }
      }
    }
  }

  /** A lookup answers by the last insertion, which does not depend on earlier lookups. */
  lemma {:induction false} LookupIsLastInsertion(events: seq<Event>, host: string, now: Instant)
    requires ClockForward(events, now)
    ensures Answer(Run(events), host, now) <==>
            LastInsertion(events, host).Some? && Fresh(LastInsertion(events, host).value, now)
  {
    CacheIsLastInsertion(events, host, now);
  }

  /** HTTP/3 on the same host, or on none in particular, and on port 443. */
  predicate OffersHttp3(srv: Service, host: string) {
    srv.id == "h3" && srv.host in {"", host} && srv.port == 443
  }

  function Lifetime(srv: Service): nat {
    if srv.maxAge.Some? then srv.maxAge.value else 24 * 60 * 60
  }

  predicate Offered(e: Event, host: string) {
    e.Inserted? && e.host == host && OffersHttp3(e.srv, host)
  }

  /** The event is the last that has anything to say about the host. */
  ghost predicate LastWord(events: seq<Event>, host: string, i: nat)
    requires i < |events|
  {
    forall j :: i < j < |events| ==> !Offered(events[j], host) && !(events[j].Cleared? && events[j].host == host)
  }

  lemma ClearMeansClear()
    ensures Meaning("clear") == Ok(AltService.Clear)
  {
  }

  lemma AcceptsIs(host: string, srv: Service)
    ensures Accepts(host, srv) <==> OffersHttp3(srv, host)
  {
  }

  lemma {:induction false} LastInsertionIs(events: seq<Event>, host: string)
    ensures LastInsertion(events, host).None? <==> forall i :: 0 <= i < |events| && Offered(events[i], host) ==> !LastWord(events, host, i)
    ensures forall i :: 0 <= i < |events| && Offered(events[i], host) && LastWord(events, host, i) ==>
              LastInsertion(events, host) == Some(HostEntry(events[i].at, Lifetime(events[i].srv)))
  {
    if events != [] {
      var n := |events| - 1;
      var before := events[..n];
      LastInsertionIs(before, host);
      forall i | 0 <= i < n
        ensures LastWord(events, host, i) <==>
                LastWord(before, host, i) && !Offered(events[n], host) && !(events[n].Cleared? && events[n].host == host)
      {
        assert forall j :: 0 <= j < n ==> before[j] == events[j];
      }
      assert LastWord(events, host, n);
    }
  }

  /**
    Over any sequence of calls with a clock that does not run backwards, a lookup succeeds exactly when the last word on
    the host was a usable service, no more whole seconds ago than its max-age or a day.
  */
  lemma {:induction false} LookupAnswersHistory(events: seq<Event>, host: string, now: Instant)
    requires ClockForward(events, now)
    ensures Answer(Run(events), host, now) <==>
            exists i :: 0 <= i < |events| && Offered(events[i], host) && LastWord(events, host, i)
              && (now - events[i].at) / 1_000_000_000 <= Lifetime(events[i].srv)
  {
    hide Offered, LastWord, LastInsertion, Run;
    LookupIsLastInsertion(events, host, now);
    LastInsertionIs(events, host);
  }

  function WithoutLookups(events: seq<Event>): seq<Event> {
    if events == [] then []
    else
      var before := WithoutLookups(events[..|events| - 1]);
      if events[|events| - 1].Looked? then before else before + [events[|events| - 1]]
  }

  lemma {:induction false} LookupsLeaveInsertions(events: seq<Event>, host: string)
    ensures LastInsertion(WithoutLookups(events), host) == LastInsertion(events, host)
  {
    if events != [] {
      var before, last := events[..|events| - 1], events[|events| - 1];
      LookupsLeaveInsertions(before, host);
      var w := WithoutLookups(before);
      assert (w + [last])[..|w|] == w;
    }
  }

  lemma {:induction false} WithoutLookupsForward(events: seq<Event>, now: Instant)
    requires ClockForward(events, now)
    ensures ClockForward(WithoutLookups(events), now)
  {
    if events != [] {
      var before, last := events[..|events| - 1], events[|events| - 1];
      assert forall i :: 0 <= i < |before| ==> before[i] == events[i];
      assert ClockForward(before, last.at);
      WithoutLookupsForward(before, last.at);
    }
  }

  /** Looking hosts up never changes what a later lookup answers: the cache behaves as if nothing were evicted. */
  lemma {:induction false} EvictionIsInvisible(events: seq<Event>, host: string, now: Instant)
    requires ClockForward(events, now)
    ensures Answer(Run(events), host, now) <==> Answer(Run(WithoutLookups(events)), host, now)
  {
    LookupIsLastInsertion(events, host, now);
    WithoutLookupsForward(events, now);
    LookupIsLastInsertion(WithoutLookups(events), host, now);
    LookupsLeaveInsertions(events, host);
  }

  class KnownHostsCache {
    var entries: map<string, HostEntry>

    constructor ()
      ensures entries == map[]
    {
      entries := map[];
    }

    method TryInsert(host: string, srv: Service, now: Instant) returns (inserted: bool)
      modifies this
      ensures entries == Apply(old(entries), Inserted(host, srv, now))
      ensures inserted <==> OffersHttp3(srv, host)
      ensures entries == if inserted then old(entries)[host := HostEntry(now, Lifetime(srv))] else old(entries)
    {
      if srv.id == "h3" && (srv.host == "" || srv.host == host) && srv.port == 443 {
        entries := entries[host := HostEntry(now, if srv.maxAge.Some? then srv.maxAge.value else 86400)];
        return true;
      }
      return false;
    }

    /** The entry is taken out and put back if it has not expired. */
    method Find(host: string, now: Instant) returns (found: bool)
      modifies this
      ensures entries == Apply(old(entries), Looked(host, now))
      ensures found <==> Answer(old(entries), host, now)
      ensures entries == if found then old(entries) else old(entries) - {host}
    {
      if host in entries {
        var entry := entries[host];
        entries := entries - {host};
        if ElapsedSeconds(entry.insertTime, now) <= entry.maxAge {
          entries := entries[host := entry];
          assert entries == old(entries);
          return true;
        }
      }
      return false;
    }

    method Clear(host: string)
      modifies this
      ensures forall at :: entries == Apply(old(entries), Cleared(host, at))
    {
      entries := entries - {host};
    }

    /** Remembers the first acceptable of some services. */
    method LearnFirst(host: string, list: seq<Service>, now: Instant)
      modifies this
      ensures entries ==
              match FirstAccepted(host, list)
              case None => old(entries)
              case Some(srv) => Apply(old(entries), Inserted(host, srv, now))
      ensures forall i :: 0 <= i < |list| && OffersHttp3(list[i], host) && (forall j :: 0 <= j < i ==> !OffersHttp3(list[j], host)) ==>
                entries == old(entries)[host := HostEntry(now, Lifetime(list[i]))]
      ensures (forall i :: 0 <= i < |list| ==> !OffersHttp3(list[i], host)) ==> entries == old(entries)
      ensures forall h :: h != host ==> (h in entries <==> h in old(entries)) && (h in entries ==> entries[h] == old(entries)[h])
    {
      hide OffersHttp3, Lifetime;
      assert list[0..] == list;
      for i := 0 to |list|
        invariant entries == old(entries)
        invariant forall j :: 0 <= j < i ==> !OffersHttp3(list[j], host)
        invariant FirstAccepted(host, list) == FirstAccepted(host, list[i..])
      {
        assert list[i..][1..] == list[i + 1..];
        AcceptsIs(host, list[i]);
        var inserted := TryInsert(host, list[i], now);
        if inserted {
          return;
        }
      }
    }

    /** Takes in the Alt-Svc field of a response: the first acceptable service is remembered, a bad field is ignored. */
    method Learn(host: string, altSvc: Option<string>, now: Instant)
      modifies this
      ensures var m := old(entries);
              entries ==
              if altSvc.None? || Meaning(altSvc.value).Err? then m
              else if Meaning(altSvc.value).value == AltService.Clear then Apply(m, Cleared(host, now))
              else
                match FirstAccepted(host, Meaning(altSvc.value).value.list)
                case None => m
                case Some(srv) => Apply(m, Inserted(host, srv, now))
      ensures forall h :: h != host ==> (h in entries <==> h in old(entries)) && (h in entries ==> entries[h] == old(entries)[h])
      ensures altSvc == Some("clear") ==> host !in entries
      ensures altSvc.Some? && Meaning(altSvc.value).Ok? && Meaning(altSvc.value).value.Services? ==>
                var list := Meaning(altSvc.value).value.list;
                && (forall i :: 0 <= i < |list| && OffersHttp3(list[i], host) && (forall j :: 0 <= j < i ==> !OffersHttp3(list[j], host)) ==>
                      entries == old(entries)[host := HostEntry(now, Lifetime(list[i]))])
                && ((forall i :: 0 <= i < |list| ==> !OffersHttp3(list[i], host)) ==> entries == old(entries))
    {
      hide OffersHttp3, Lifetime, FirstAccepted, Meaning;
      ClearMeansClear();
      if altSvc.None? {
        return;
      }
      var parsed := Parse(altSvc.value);
      match parsed {
        case Err(_) =>
        case Ok(Clear) => this.Clear(host);
        case Ok(Services(list)) =>
          LearnFirst(host, list, now);
      }
    }

    /** Whether a request goes over HTTP/3: by its version, or because its host is known and no port was given. */
    method Route(isHttp3: bool, host: string, port: Option<nat>, now: Instant) returns (http3: bool, altUsed: bool)
      modifies this
      ensures altUsed <==> port.None? && Answer(old(entries), host, now)
      ensures http3 <==> isHttp3 || altUsed
      ensures entries == if port.None? then Apply(old(entries), Looked(host, now)) else old(entries)
    {
      http3, altUsed := isHttp3, false;
      if port.None? {
        var known := Find(host, now);
        if known {
          altUsed, http3 := true, true;
        }
      }
    }
  }
}
