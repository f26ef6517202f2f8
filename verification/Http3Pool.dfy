/** The pool of HTTP/3 connections of `cyper/src/http3.rs`, and the tasks that share it. */
module Http3Pool {
  import opened Prelude
  import opened Steps

  datatype Key = Key(scheme: string, authority: string)

  // ----- close channels -----

  /** The driver of a connection: at work, past sending the error it ended with, or gone together with its sender. */
  datatype Driver = Driving | Reported | Gone

  /** The channel on which a driver reports its end, with one message at most; `heard` says that its receiver exists. */
  datatype Channel = Channel(queued: bool, driver: Driver, heard: bool)

  datatype Receipt = Message | Empty | Disconnected

  const OPENED: Channel := Channel(false, Driving, true)

  /** Sending without a receiver fails, and queues nothing. */
  function AfterReport(ch: Channel): Channel {
    ch.(queued := ch.heard, driver := Reported)
  }

  function AfterLeaving(ch: Channel): Channel {
    ch.(driver := Gone)
  }

  /** A queued message is received even if the sender is gone by then. */
  function TryReceive(ch: Channel): Receipt {
    if ch.queued then Message else if ch.driver.Gone? then Disconnected else Empty
  }

  function AfterReceipt(ch: Channel): Channel {
    ch.(queued := false)
  }

  /** With the receiver goes whatever was queued for it. */
  function Unheard(ch: Channel): Channel {
    ch.(queued := false, heard := false)
  }

  /** All close channels, each known by the number of its connection. */
  class Channels {
    var of: map<nat, Channel>

    constructor ()
      ensures of == map[]
    {
      of := map[];
    }

    method Open(c: nat)
      requires c !in of
      modifies this
      ensures of == old(of)[c := OPENED]
    {
      of := of[c := Channel(false, Driving, true)];
    }

    /** The driver sends the error it has ended with. */
    method Report(c: nat)
      requires c in of && of[c].driver.Driving?
      modifies this
      ensures of == old(of)[c := AfterReport(old(of)[c])]
    {
      if of[c].heard {
        of := of[c := Channel(true, Reported, true)];
      } else {
        of := of[c := of[c].(queued := false, driver := Reported)];
      }
    }

    /** The driver is gone, with its sender; it need not have sent anything. */
    method Leave(c: nat)
      requires c in of
      modifies this
      ensures of == old(of)[c := AfterLeaving(old(of)[c])]
    {
      of := of[c := of[c].(driver := Gone)];
    }

    /** Takes the queued message, if there is one. */
    method TryRecv(c: nat) returns (r: Receipt)
      requires c in of
      modifies this
      ensures r == TryReceive(old(of)[c]) && of == old(of)[c := AfterReceipt(old(of)[c])]
    {
      if of[c].queued {
        of := of[c := of[c].(queued := false)];
        return Message;
      }
      assert of[c := of[c].(queued := false)] == of;
      return if of[c].driver == Gone then Disconnected else Empty;
    }

    method DropReceiver(c: nat)
      requires c in of
      modifies this
      ensures of == old(of)[c := Unheard(old(of)[c])]
    {
      of := of[c := of[c].(queued := false, heard := false)];
    }
  }

  // ----- the pool -----

  /** Connections are told apart by a number; a client of one is a handle on it. */
  datatype PoolConnection = PoolConnection(client: nat, idleTimeout: int)

  datatype PoolState = PoolState(connecting: set<Key>, idle: map<Key, PoolConnection>)

  /** The pooled connection for a key has nothing to report. */
  predicate Quiet(p: PoolState, key: Key, channels: map<nat, Channel>) {
    key in p.idle && p.idle[key].client in channels && TryReceive(channels[p.idle[key].client]).Empty?
  }

  /** The pool after a key has been asked for: its connection has been used, or has left. */
  function Asked(p: PoolState, key: Key, channels: map<nat, Channel>, now: int): PoolState {
    if Quiet(p, key, channels) then p.(idle := p.idle[key := p.idle[key].(idleTimeout := now)])
    else p.(idle := p.idle - {key})
  }

  /** The channels after a connection that was pooled for a key has been dropped. */
  function Dropped(p: PoolState, key: Key, channels: map<nat, Channel>): map<nat, Channel> {
    if key in p.idle && p.idle[key].client in channels
    then channels[p.idle[key].client := Unheard(channels[p.idle[key].client])]
    else channels
  }

  /** The channels after a key has been asked for: a connection with something to report is dropped, message and all. */
  function Probed(p: PoolState, key: Key, channels: map<nat, Channel>): map<nat, Channel> {
    if Quiet(p, key, channels) then channels else Dropped(p, key, channels)
  }

  function Pooled(p: PoolState, key: Key): Option<nat> {
    if key in p.idle then Some(p.idle[key].client) else None
  }

  function Begun(p: PoolState, key: Key): PoolState {
    p.(connecting := p.connecting + {key})
  }

  function Stored(p: PoolState, key: Key, client: nat, now: int): PoolState {
    PoolState(p.connecting - {key}, p.idle[key := PoolConnection(client, now)])
  }

  datatype Answer = Client(client: nat) | InProgress | ConnectFailed

  class Pool {
    var connecting: set<Key>
    var idleConns: map<Key, PoolConnection>

    constructor ()
      ensures State() == PoolState({}, map[])
    {
      connecting, idleConns := {}, map[];
    }

    function State(): PoolState
      reads this
    {
      PoolState(connecting, idleConns)
    }

    /** Notes that a key is being connected; false if it already is. */
    method Connecting(key: Key) returns (ok: bool)
      modifies this
      ensures ok <==> key !in old(connecting)
      ensures State() == Begun(old(State()), key)
      ensures !ok ==> State() == old(State())
    {
      ok := key !in connecting;
      connecting := connecting + {key};
    }

    /** Whether a connection is unusable: its driver has left a message, or is gone. */
    method IsInvalid(conn: PoolConnection, channels: Channels) returns (invalid: bool)
      requires conn.client in channels.of
      modifies channels
      ensures invalid <==> !TryReceive(old(channels.of)[conn.client]).Empty?
      ensures channels.of == old(channels.of)[conn.client := AfterReceipt(old(channels.of)[conn.client])]
    {
      var r := channels.TryRecv(conn.client);
      match r {
        case Empty => return false;
        case Disconnected => return true;
        case Message => return true;
      }
    }

    /** The pooled client for a key, unless its driver has something to report; then it leaves the pool. */
    method TryPool(key: Key, channels: Channels, now: int) returns (c: Option<nat>)
      requires key in idleConns ==> idleConns[key].client in channels.of
      modifies this, channels
      ensures State() == Asked(old(State()), key, old(channels.of), now)
      ensures channels.of == Probed(old(State()), key, old(channels.of))
      ensures c == if Quiet(old(State()), key, old(channels.of)) then Pooled(old(State()), key) else None
      ensures connecting == old(connecting)
      ensures forall k :: k != key ==> (k in idleConns <==> k in old(idleConns)) && (k in idleConns ==> idleConns[k] == old(idleConns)[k])
      ensures if c.Some? then key in idleConns && idleConns[key] == PoolConnection(c.value, now) else key !in idleConns
    {
      if key in idleConns {
        var invalid := IsInvalid(idleConns[key], channels);
        if invalid {
          channels.DropReceiver(idleConns[key].client);
          idleConns := idleConns - {key};
          return None;
        }
        assert channels.of == old(channels.of);
      }
      if key in idleConns {
        idleConns := idleConns[key := idleConns[key].(idleTimeout := now)];
        return Some(idleConns[key].client);
      }
      assert idleConns - {key} == idleConns;
      return None;
    }

    /**
      Opens the channel of a new connection and puts the connection into the pool in place of any other for the key,
      which is no longer being connected.
    */
    method NewConnection(key: Key, client: nat, channels: Channels, now: int) returns (existed: bool)
      requires client !in channels.of && (key in idleConns ==> idleConns[key].client in channels.of)
      modifies this, channels
      ensures State() == Stored(old(State()), key, client, now)
      ensures channels.of == Dropped(old(State()), key, old(channels.of))[client := OPENED]
      ensures existed <==> key in old(connecting)
      ensures connecting == old(connecting) - {key} && idleConns == old(idleConns)[key := PoolConnection(client, now)]
    {
      channels.Open(client);
      if key in idleConns {
        channels.DropReceiver(idleConns[key].client);
      }
      idleConns := idleConns[key := PoolConnection(client, now)];
      existed := key in connecting;
      connecting := connecting - {key};
    }

    /**
      One task alone, from the pool to a client; `dial` is what connecting yields. After a failed connect the key stays
      behind as being connected, and as long as it is there an unpooled key only ever answers that it is in progress.
    */
    method GetPooledClient(key: Key, channels: Channels, now: int, dial: Option<nat>) returns (r: Answer)
      requires key in idleConns ==> idleConns[key].client in channels.of
      requires dial.Some? ==> dial.value !in channels.of
      modifies this, channels
      ensures var quiet := Quiet(old(State()), key, old(channels.of));
              && (r == InProgress <==> !quiet && key in old(connecting))
              && (r == ConnectFailed <==> !quiet && key !in old(connecting) && dial.None?)
              && (r.Client? ==> Pooled(State(), key) == Some(r.client) && connecting == old(connecting))
              && (r.Client? ==> r.client == if quiet then old(idleConns)[key].client else dial.value)
              && (r == ConnectFailed ==> connecting == old(connecting) + {key})
      ensures forall k :: k != key ==> (k in idleConns <==> k in old(idleConns)) && (k in idleConns ==> idleConns[k] == old(idleConns)[k])
      ensures if r.Client? then key in idleConns && idleConns[key] == PoolConnection(r.client, now) else key !in idleConns
      ensures connecting == if r == ConnectFailed then old(connecting) + {key} else old(connecting)
      ensures var quiet := Quiet(old(State()), key, old(channels.of));
              channels.of ==
              if quiet then old(channels.of)
              else
                var left := Dropped(old(State()), key, old(channels.of));
                if r.Client? then left[r.client := OPENED] else left
    {
      var pooled := TryPool(key, channels, now);
      if pooled.Some? {
        return Client(pooled.value);
      }
      var ok := Connecting(key);
      if !ok {
        return InProgress;
      }
      if dial.None? {
        return ConnectFailed;
      }
      var existed := NewConnection(key, dial.value, channels, now);
      assert existed;
      return Client(dial.value);
    }
  }

  // ----- tasks -----

  /** How far a task has got in obtaining a client. */
  datatype Phase =
    | Asking
    | Missed
    | Dialling
    | Connected(c: nat)
    | Served(c: nat)
    | Refused
    | Lost

  datatype Task = Task(key: Key, phase: Phase)

  /** All tasks, the pool, the key each connection was made for, and the channel of each. */
  datatype System = System(pool: PoolState, tasks: map<nat, Task>, made: map<nat, Key>, channels: map<nat, Channel>)

  /** What happens between one lock and the next. A dial ends in a connection, in an error, or by being dropped. */
  datatype Step =
    | Ask(t: nat, key: Key)
    | TakePooled(t: nat, now: int)
    | BeginDial(t: nat)
    | DialSucceeds(t: nat, c: nat)
    | DialFails(t: nat)
    | DialDropped(t: nat)
    | Store(t: nat, now: int)
    | DriverReports(c: nat)
    | DriverLeaves(c: nat)

  const START: System := System(PoolState({}, map[]), map[], map[], map[])

  predicate At(s: System, t: nat, phase: Phase) {
    t in s.tasks && s.tasks[t].phase == phase
  }

  predicate Enabled(s: System, step: Step) {
    match step
    case Ask(t, _) => t !in s.tasks
    case TakePooled(t, _) => At(s, t, Asking)
    case BeginDial(t) => At(s, t, Missed)
    case DialSucceeds(t, c) => At(s, t, Dialling) && c !in s.made && c !in s.channels
    case DialFails(t) => At(s, t, Dialling)
    case DialDropped(t) => At(s, t, Dialling)
    case Store(t, _) => t in s.tasks && s.tasks[t].phase.Connected?
    case DriverReports(c) => c in s.channels && s.channels[c].driver.Driving?
    case DriverLeaves(c) => c in s.channels && !s.channels[c].driver.Gone?
  }

  function Go(s: System, t: nat, phase: Phase): System
    requires t in s.tasks
  {
    s.(tasks := s.tasks[t := s.tasks[t].(phase := phase)])
  }

  function Take(s: System, step: Step): System
    requires Enabled(s, step)
  {
    match step
    case Ask(t, key) => s.(tasks := s.tasks[t := Task(key, Asking)])
    case TakePooled(t, now) =>
      var key := s.tasks[t].key;
      Go(s, t, if Quiet(s.pool, key, s.channels) then Served(s.pool.idle[key].client) else Missed)
        .(pool := Asked(s.pool, key, s.channels, now), channels := Probed(s.pool, key, s.channels))
    case BeginDial(t) =>
      var key := s.tasks[t].key;
      Go(s, t, if key in s.pool.connecting then Refused else Dialling).(pool := Begun(s.pool, key))
    case DialSucceeds(t, c) =>
      Go(s, t, Connected(c)).(made := s.made[c := s.tasks[t].key], channels := s.channels[c := OPENED])
    case DialFails(t) => Go(s, t, Lost)
    case DialDropped(t) => Go(s, t, Lost)
    case Store(t, now) =>
      var c := s.tasks[t].phase.c;
      var key := s.tasks[t].key;
      Go(s, t, Served(c)).(pool := Stored(s.pool, key, c, now), channels := Dropped(s.pool, key, s.channels))
    case DriverReports(c) => s.(channels := s.channels[c := AfterReport(s.channels[c])])
    case DriverLeaves(c) => s.(channels := s.channels[c := AfterLeaving(s.channels[c])])
  }

  function Next(s: System, step: Step): Option<System> {
    if Enabled(s, step) then Some(Take(s, step)) else None
  }

  ghost predicate Reachable(s: System) {
    Leads(Next, START, s)
  }

  // ----- what holds in every interleaving -----

  /** Its dial has begun and its connection is not stored yet. */
  predicate InFlight(s: System, t: nat) {
    t in s.tasks && (s.tasks[t].phase.Dialling? || s.tasks[t].phase.Connected?)
  }

  predicate IsLost(s: System, t: nat) {
    t in s.tasks && s.tasks[t].phase.Lost?
  }

  predicate Holds(s: System, t: nat) {
    InFlight(s, t) || IsLost(s, t)
  }

  /** The keys being connected are those of the dials in flight and those of the dials that came to nothing. */
  ghost predicate ConnectingAccounted(s: System) {
    && (forall t :: Holds(s, t) ==> s.tasks[t].key in s.pool.connecting)
    && (forall k :: k in s.pool.connecting ==> exists t :: Holds(s, t) && s.tasks[t].key == k)
  }

  /** One key is held by one task at most, dead or alive. */
  ghost predicate OneHolder(s: System) {
    forall t, u :: Holds(s, t) && Holds(s, u) && s.tasks[t].key == s.tasks[u].key ==> t == u
  }

  /** Every client in the pool or in a task's hands is of a connection made for that key. */
  ghost predicate RightKeys(s: System) {
    && (forall k :: k in s.pool.idle ==> s.pool.idle[k].client in s.made && s.made[s.pool.idle[k].client] == k)
    && (forall t :: t in s.tasks && (s.tasks[t].phase.Connected? || s.tasks[t].phase.Served?) ==>
          s.tasks[t].phase.c in s.made && s.made[s.tasks[t].phase.c] == s.tasks[t].key)
  }

  /** The channel still tells whether its driver has ended. */
  predicate Telling(s: System, c: nat) {
    c in s.channels && s.channels[c].heard && (s.channels[c].driver.Reported? ==> s.channels[c].queued)
  }

  /** Connections that are pooled, or about to be, have channels that tell; one that is about to be is not pooled yet. */
  ghost predicate ChannelsTell(s: System) {
    && (forall c :: c in s.made <==> c in s.channels)
    && (forall c :: c in s.channels && s.channels[c].queued ==> s.channels[c].heard && !s.channels[c].driver.Driving?)
    && (forall k :: k in s.pool.idle ==> Telling(s, s.pool.idle[k].client))
    && (forall t :: t in s.tasks && s.tasks[t].phase.Connected? ==>
          Telling(s, s.tasks[t].phase.c) && Pooled(s.pool, s.tasks[t].key) != Some(s.tasks[t].phase.c))
  }

  /** The connection is in the pool, or in the hands of a task that is about to put it there. */
  ghost predicate Held(s: System, c: nat) {
    (c in s.made && Pooled(s.pool, s.made[c]) == Some(c)) || exists t :: At(s, t, Connected(c))
  }

  ghost predicate HeardAreHeld(s: System) {
    forall c :: c in s.channels && s.channels[c].heard ==> Held(s, c)
  }

  ghost predicate Sound(s: System) {
    ConnectingAccounted(s) && OneHolder(s) && RightKeys(s) && ChannelsTell(s) && HeardAreHeld(s)
  }

  /** A task comes to hold a key only by beginning to dial, when nobody holds it; it keeps its key. */
  lemma NewHolder(s: System, step: Step, u: nat)
    requires Enabled(s, step) && Holds(Take(s, step), u)
    ensures u in s.tasks && Take(s, step).tasks[u].key == s.tasks[u].key
    ensures !Holds(s, u) ==> step == BeginDial(u) && s.tasks[u].key !in s.pool.connecting
  {
  }

  lemma AccountedStep(s: System, step: Step)
    requires ConnectingAccounted(s) && OneHolder(s) && Enabled(s, step)
    ensures ConnectingAccounted(Take(s, step))
  {
    hide Quiet, Probed, Dropped;
    var s' := Take(s, step);
    forall k | k in s'.pool.connecting ensures exists t :: Holds(s', t) && s'.tasks[t].key == k {
      if k in s.pool.connecting {
        var t :| Holds(s, t) && s.tasks[t].key == k;
        assert Holds(s', t) && s'.tasks[t].key == k;
      } else {
        assert Holds(s', step.t) && s'.tasks[step.t].key == k;
      }
    }
  }

  lemma OneHolderStep(s: System, step: Step)
    requires ConnectingAccounted(s) && OneHolder(s) && Enabled(s, step)
    ensures OneHolder(Take(s, step))
  {
    hide Take, Enabled;
    var s' := Take(s, step);
    forall t, u | Holds(s', t) && Holds(s', u) && s'.tasks[t].key == s'.tasks[u].key ensures t == u {
      NewHolder(s, step, t);
      NewHolder(s, step, u);
    }
  }

  lemma RightKeysStep(s: System, step: Step)
    requires RightKeys(s) && Enabled(s, step)
    ensures RightKeys(Take(s, step))
  {
  }

  lemma PooledTellStep(s: System, step: Step)
    requires Sound(s) && Enabled(s, step)
    ensures var s' := Take(s, step); forall k :: k in s'.pool.idle ==> Telling(s', s'.pool.idle[k].client)
  {
    hide HeardAreHeld, ConnectingAccounted, OneHolder;
  }

  lemma ConnectedTellStep(s: System, step: Step, t: nat)
    requires Sound(s) && Enabled(s, step)
    requires t in Take(s, step).tasks && Take(s, step).tasks[t].phase.Connected?
    ensures var s' := Take(s, step);
            Telling(s', s'.tasks[t].phase.c) && Pooled(s'.pool, s'.tasks[t].key) != Some(s'.tasks[t].phase.c)
  {
    hide HeardAreHeld, ConnectingAccounted;
    assert Holds(s, t);
    if step.Store? {
      assert Holds(s, step.t);
    }
  }

  lemma ChannelsTellStep(s: System, step: Step)
    requires Sound(s) && Enabled(s, step)
    ensures ChannelsTell(Take(s, step))
  {
    hide HeardAreHeld, ConnectingAccounted, OneHolder, RightKeys, Telling;
    PooledTellStep(s, step);
    forall t | t in Take(s, step).tasks && Take(s, step).tasks[t].phase.Connected?
      ensures var s' := Take(s, step);
              Telling(s', s'.tasks[t].phase.c) && Pooled(s'.pool, s'.tasks[t].key) != Some(s'.tasks[t].phase.c)
    {
      ConnectedTellStep(s, step, t);
    }
  }

  lemma HeardStep(s: System, step: Step, c: nat)
    requires Sound(s) && Enabled(s, step) && c in Take(s, step).channels && Take(s, step).channels[c].heard
    ensures Held(Take(s, step), c)
  {
    hide ConnectingAccounted, OneHolder, Telling;
    var s' := Take(s, step);
    if step.DialSucceeds? && step.c == c {
      assert At(s', step.t, Connected(c));
    } else {
      assert Held(s, c);
      if t :| At(s, t, Connected(c)) {
        assert At(s', t, Connected(c)) || (step.Store? && step.t == t);
      }
    }
  }

  lemma HeardAreHeldStep(s: System, step: Step)
    requires Sound(s) && Enabled(s, step)
    ensures HeardAreHeld(Take(s, step))
  {
    hide Sound, Held;
    forall c | c in Take(s, step).channels && Take(s, step).channels[c].heard ensures Held(Take(s, step), c) {
      HeardStep(s, step, c);
    }
  }

  lemma SoundStep()
    ensures Kept(Next, s => Sound(s))
  {
    hide ConnectingAccounted, OneHolder, RightKeys, ChannelsTell, HeardAreHeld, Take, Enabled;
    forall s, step | Sound(s) && Next(s, step).Some? ensures Sound(Next(s, step).value) {
      AccountedStep(s, step);
      OneHolderStep(s, step);
      RightKeysStep(s, step);
      ChannelsTellStep(s, step);
      HeardAreHeldStep(s, step);
    }
  }

  lemma ReachableSound(s: System)
    requires Reachable(s)
    ensures Sound(s)
  {
    SoundStep();
    assert Sound(START);
    LeadsKept(Next, s => Sound(s), START, s);
  }

  lemma ReachedOn(s: System, steps: seq<Step>)
    requires Reachable(s) && Run(Next, s, steps).Some?
    ensures Reachable(Run(Next, s, steps).value)
  {
    LeadsOn(Next, START, s, steps);
  }

  lemma ReachedNext(s: System, step: Step)
    requires Reachable(s) && Enabled(s, step)
    ensures Reachable(Take(s, step))
  {
    RunOne(Next, s, step);
    ReachedOn(s, [step]);
  }

  /**
    In every interleaving the keys being connected are exactly those in flight and those lost, no key is both, and no
    two tasks connect to one key.
  */
  lemma ConnectingExactly(s: System)
    requires Reachable(s)
    ensures forall k :: k in s.pool.connecting <==> exists t :: Holds(s, t) && s.tasks[t].key == k
    ensures forall t, u :: Holds(s, t) && Holds(s, u) && s.tasks[t].key == s.tasks[u].key ==> t == u
  {
    ReachableSound(s);
  }

  /** The assertion on storing a connection never fails: its key is being connected, and by that task alone. */
  lemma StoreFindsKey(s: System, t: nat, now: int)
    requires Reachable(s) && Enabled(s, Store(t, now))
    ensures s.tasks[t].key in s.pool.connecting
    ensures var s' := Take(s, Store(t, now));
            s'.pool.connecting == s.pool.connecting - {s.tasks[t].key}
            && forall u :: Holds(s', u) ==> s'.tasks[u].key != s.tasks[t].key
  {
    ReachableSound(s);
    assert Holds(s, t);
  }

  /** A client is only handed out under the key its connection was made for. */
  lemma ServedForKey(s: System, t: nat)
    requires Reachable(s) && t in s.tasks && s.tasks[t].phase.Served?
    ensures s.tasks[t].phase.c in s.made && s.made[s.tasks[t].phase.c] == s.tasks[t].key
  {
    ReachableSound(s);
  }

  // ----- drivers that end -----

  /** The driver of the connection has neither sent its error nor gone. */
  predicate Alive(s: System, c: nat) {
    c in s.channels && s.channels[c].driver.Driving?
  }

  predicate PooledAlive(s: System, k: Key) {
    k in s.pool.idle && Alive(s, s.pool.idle[k].client)
  }

  /** Asked about a pooled connection, its channel always says whether its driver has ended, no matter how. */
  lemma QuietIffAlive(s: System, k: Key)
    requires Reachable(s)
    ensures Quiet(s.pool, k, s.channels) <==> PooledAlive(s, k)
  {
    ReachableSound(s);
  }

  /** A connection's channel has a receiver exactly while the connection is pooled or about to be. */
  lemma HeardIffHeld(s: System, c: nat)
    requires Reachable(s) && c in s.channels
    ensures s.channels[c].heard <==> Held(s, c)
  {
    ReachableSound(s);
  }

  /**
    A message is lost to a channel, taken or dropped, only by the step with which its connection leaves the pool, and
    that connection can never be pooled again.
  */
  lemma MessageTakenLeavesPool(s: System, step: Step, c: nat)
    requires Reachable(s) && Enabled(s, step)
    requires c in s.channels && s.channels[c].queued
    requires c in Take(s, step).channels ==> !Take(s, step).channels[c].queued
    ensures step.TakePooled? || step.Store?
    ensures Pooled(s.pool, s.tasks[step.t].key) == Some(c)
    ensures forall k :: Pooled(Take(s, step).pool, k) != Some(c)
    ensures forall t :: t in Take(s, step).tasks ==> Take(s, step).tasks[t].phase != Connected(c)
  {
    ReachableSound(s);
    if step.Store? {
      assert Holds(s, step.t);
    }
    assert forall t :: t in s.tasks && s.tasks[t].phase.Connected? ==> Holds(s, t);
  }

  /** A task that asks is handed the pooled client for its key if and only if there is one with its driver at work. */
  lemma PooledIsAlive(s: System, t: nat, now: int)
    requires Reachable(s) && Enabled(s, TakePooled(t, now))
    ensures var key, s' := s.tasks[t].key, Take(s, TakePooled(t, now));
            && (s'.tasks[t].phase.Served? <==> PooledAlive(s, key))
            && (PooledAlive(s, key) ==>
                  var c := s.pool.idle[key].client;
                  s'.tasks[t].phase == Served(c) && c in s.made && s.made[c] == key && Pooled(s'.pool, key) == Some(c))
            && (!PooledAlive(s, key) ==> s'.tasks[t].phase == Missed && key !in s'.pool.idle)
  {
    ReachableSound(s);
    QuietIffAlive(s, s.tasks[t].key);
  }

  // ----- a dial that comes to nothing -----

  lemma LostStep(s: System, step: Step, t: nat)
    requires Sound(s) && IsLost(s, t) && Enabled(s, step)
    ensures var s', k := Take(s, step), s.tasks[t].key;
            && IsLost(s', t) && s'.tasks[t].key == k
            && (k in s'.pool.idle ==> k in s.pool.idle && s'.pool.idle[k].client == s.pool.idle[k].client)
            && (forall u :: u in s'.tasks && s'.tasks[u].key == k && s'.tasks[u].phase.Served? ==>
                  || (u in s.tasks && s.tasks[u] == s'.tasks[u])
                  || (k in s.pool.idle && s'.tasks[u].phase.c == s.pool.idle[k].client))
  {
    hide ChannelsTell, RightKeys, ConnectingAccounted, Probed;
    assert Holds(s, t);
    if step.Store? {
      assert Holds(s, step.t);
    }
  }

  /**
    Once a dial for a key has come to nothing, the key is never dialled again: it stays marked as being connected, no
    task for it is ever in flight, and the only connection still to be had is one that is pooled already. With none
    pooled, no task for the key that has not been served ever will be.
  */
  lemma {:induction false} LostForGood(s: System, steps: seq<Step>, t: nat)
    requires Reachable(s) && IsLost(s, t) && Run(Next, s, steps).Some?
    ensures var s', k := Run(Next, s, steps).value, s.tasks[t].key;
            && k in s'.pool.connecting
            && (forall u :: InFlight(s', u) ==> s'.tasks[u].key != k)
            && (k in s'.pool.idle ==> k in s.pool.idle && s'.pool.idle[k].client == s.pool.idle[k].client)
            && (forall u :: u in s'.tasks && s'.tasks[u].key == k && s'.tasks[u].phase.Served? ==>
                  || (u in s.tasks && s.tasks[u] == s'.tasks[u])
                  || (k in s.pool.idle && s'.tasks[u].phase.c == s.pool.idle[k].client))
    decreases |steps|
  {
    hide Reachable, Take, Enabled;
    ReachableSound(s);
    if steps == [] {
      assert Holds(s, t);
      assert forall u :: InFlight(s, u) ==> Holds(s, u);
    } else {
      hide Sound;
      ReachedNext(s, steps[0]);
      LostStep(s, steps[0], t);
      LostForGood(Take(s, steps[0]), steps[1..], t);
    }
  }

  lemma UnusedNumber(used: set<nat>) returns (n: nat)
    ensures n !in used
  {
    n := 0;
    var above := used;
    while n in above
      invariant forall u :: u in used && u !in above ==> u < n
      invariant above <= used
      decreases above
    {
      above := above - {n};
      n := n + 1;
    }
    assert n in used ==> n < n;
  }

  /** Some run from here brings a task for the key to dialling. */
  ghost predicate CanBeDialled(s: System, k: Key) {
    exists s', t :: Leads(Next, s, s') && InFlight(s', t) && s'.tasks[t].key == k
  }

  lemma LeadsStep(s: System, s': System, step: Step)
    requires Leads(Next, s, s') && Enabled(s', step)
    ensures Leads(Next, s, Take(s', step))
  {
    RunOne(Next, s', step);
    LeadsOn(Next, s, s', [step]);
  }

  /** A key that nobody holds is dialled by the next task that asks, once the driver of a pooled connection has gone. */
  lemma UnheldIsDialled(s: System, k: Key)
    requires Reachable(s) && k !in s.pool.connecting
    ensures CanBeDialled(s, k)
  {
    hide Leads, Reachable, Probed, Sound;
    var s0 := s;
    LeadsNowhere(Next, s);
    if PooledAlive(s, k) {
      var c := s.pool.idle[k].client;
      LeadsStep(s, s, DriverLeaves(c));
      ReachedNext(s, DriverLeaves(c));
      s0 := Take(s, DriverLeaves(c));
    }
    QuietIffAlive(s0, k);
    var t := UnusedNumber(s0.tasks.Keys);
    var s1 := Take(s0, Ask(t, k));
    LeadsStep(s, s0, Ask(t, k));
    var s2 := Take(s1, TakePooled(t, 0));
    LeadsStep(s, s1, TakePooled(t, 0));
    var s3 := Take(s2, BeginDial(t));
    LeadsStep(s, s2, BeginDial(t));
    assert InFlight(s3, t) && s3.tasks[t].key == k;
  }

  /** A key can still come to be dialled if and only if no dial for it has come to nothing. */
  lemma {:induction false} DialledAgainIff(s: System, k: Key)
    requires Reachable(s)
    ensures CanBeDialled(s, k) <==> !exists t :: IsLost(s, t) && s.tasks[t].key == k
  {
    hide Reachable, RightKeys, ChannelsTell, OneHolder;
    ReachableSound(s);
    if t :| IsLost(s, t) && s.tasks[t].key == k {
      forall s', u | Leads(Next, s, s') && InFlight(s', u) ensures s'.tasks[u].key != k {
        var steps: seq<Step> :| Run(Next, s, steps) == Some(s');
        LostForGood(s, steps, t);
      }
    } else if k in s.pool.connecting {
      var t :| Holds(s, t) && s.tasks[t].key == k;
      LeadsNowhere(Next, s);
      assert InFlight(s, t);
    } else {
      UnheldIsDialled(s, k);
    }
  }

  // ----- missing and dialling at once -----

  ghost predicate SomeoneMissed(s: System) {
    exists t :: At(s, t, Missed)
  }

  /** A task that has missed begins to dial before anything else happens, as when all tasks share one thread. */
  ghost predicate Prompt(s: System, steps: seq<Step>)
    decreases |steps|
  {
    steps != [] && Enabled(s, steps[0]) ==>
      (SomeoneMissed(s) ==> steps[0].BeginDial?) && Prompt(Take(s, steps[0]), steps[1..])
  }

  /** Whoever is about to put a connection into the pool finds no other there. */
  ghost predicate NothingToReplace(s: System) {
    && (forall t :: InFlight(s, t) || At(s, t, Missed) ==> s.tasks[t].key !in s.pool.idle)
    && (forall t, u :: At(s, t, Missed) && At(s, u, Missed) ==> t == u)
  }

  /** Where a task on its way into the pool was before the step, and whether its key was pooled by it. */
  lemma OnItsWay(s: System, step: Step, t: nat)
    requires Enabled(s, step) && (InFlight(Take(s, step), t) || At(Take(s, step), t, Missed))
    ensures t in s.tasks && Take(s, step).tasks[t].key == s.tasks[t].key
    ensures At(Take(s, step), t, Missed) ==> At(s, t, Missed) || (step.TakePooled? && step.t == t)
    ensures InFlight(Take(s, step), t) ==> InFlight(s, t) || (step == BeginDial(t) && At(s, t, Missed))
    ensures step.TakePooled? && step.t == t ==> s.tasks[t].key !in Take(s, step).pool.idle
    ensures step.Store? ==> InFlight(s, step.t) && step.t != t
    ensures step.BeginDial? ==> At(s, step.t, Missed) && !At(Take(s, step), step.t, Missed)
  {
  }

  lemma NewlyPooled(s: System, step: Step, k: Key)
    requires Enabled(s, step)
    ensures k in Take(s, step).pool.idle ==> k in s.pool.idle || (step.Store? && step.t in s.tasks && s.tasks[step.t].key == k)
  {
  }

  lemma NothingToReplaceStep(s: System, step: Step)
    requires OneHolder(s) && NothingToReplace(s) && Enabled(s, step) && (SomeoneMissed(s) ==> step.BeginDial?)
    ensures NothingToReplace(Take(s, step))
  {
    hide Take, Enabled;
    var s' := Take(s, step);
    assert forall t :: At(s, t, Missed) ==> SomeoneMissed(s);
    forall t | InFlight(s', t) || At(s', t, Missed) ensures s'.tasks[t].key !in s'.pool.idle {
      OnItsWay(s, step, t);
      NewlyPooled(s, step, s.tasks[t].key);
      assert step.Store? ==> Holds(s, step.t);
      assert InFlight(s, t) ==> Holds(s, t);
    }
    forall t, u | At(s', t, Missed) && At(s', u, Missed) ensures t == u {
      OnItsWay(s, step, t);
      OnItsWay(s, step, u);
    }
  }

  /** If tasks that miss dial at once, a stored connection never replaces one that is still in the pool. */
  lemma {:induction false} NeverReplaced(s: System, steps: seq<Step>, t: nat, now: int)
    requires Reachable(s) && NothingToReplace(s) && Prompt(s, steps + [Store(t, now)])
    requires Run(Next, s, steps).Some? && Enabled(Run(Next, s, steps).value, Store(t, now))
    ensures var s' := Run(Next, s, steps).value; s'.tasks[t].key !in s'.pool.idle
    decreases |steps|
  {
    hide Reachable, ConnectingAccounted, RightKeys, ChannelsTell;
    if steps == [] {
      assert InFlight(s, t);
    } else {
      hide NothingToReplace;
      var all := steps + [Store(t, now)];
      assert all[0] == steps[0] && all[1..] == steps[1..] + [Store(t, now)];
      ReachableSound(s);
      ReachedNext(s, steps[0]);
      NothingToReplaceStep(s, steps[0]);
      NeverReplaced(Take(s, steps[0]), steps[1..], t, now);
    }
  }

  // ----- what a stored connection replaces -----

  /** It has an answer and takes no further step. */
  predicate Answered(s: System, t: nat) {
    t in s.tasks && (s.tasks[t].phase.Served? || s.tasks[t].phase.Refused? || s.tasks[t].phase.Lost?)
  }

  lemma {:induction false} StaysAnswered(s: System, steps: seq<Step>, t: nat)
    requires Answered(s, t) && Run(Next, s, steps).Some?
    ensures Answered(Run(Next, s, steps).value, t)
    decreases |steps|
  {
    if steps != [] {
      StaysAnswered(Take(s, steps[0]), steps[1..], t);
    }
  }

  lemma DeadStaysDead(s: System, step: Step, c: nat)
    requires Enabled(s, step) && c in s.channels && !Alive(s, c)
    ensures !Alive(Take(s, step), c)
  {
  }

  lemma {:induction false} NeverRevived(s: System, steps: seq<Step>, c: nat)
    requires c in s.channels && !Alive(s, c) && Run(Next, s, steps).Some?
    ensures !Alive(Run(Next, s, steps).value, c)
    decreases |steps|
  {
    if steps != [] {
      DeadStaysDead(s, steps[0], c);
      NeverRevived(Take(s, steps[0]), steps[1..], c);
    }
  }

  /** While a task is in flight nobody else stores under its key, and only a connection whose driver has ended leaves. */
  lemma InFlightStep(s: System, step: Step, t: nat)
    requires Sound(s) && Enabled(s, step) && InFlight(s, t)
    ensures var s', k := Take(s, step), s.tasks[t].key;
            || Answered(s', t)
            || (&& InFlight(s', t) && s'.tasks[t].key == k
                && (k in s'.pool.idle ==> Pooled(s'.pool, k) == Pooled(s.pool, k))
                && (k in s.pool.idle && k !in s'.pool.idle ==>
                      s.pool.idle[k].client in s.channels && !Alive(s, s.pool.idle[k].client)))
  {
    hide HeardAreHeld, ConnectingAccounted, RightKeys;
    assert Holds(s, t);
    if step.Store? {
      assert Holds(s, step.t);
    }
  }

  /**
    Storing the connection of a task in flight replaces a live one exactly when the pool held that one already when the
    dial was in flight, and its driver has not ended by the time of storing.
  */
  lemma {:induction false} ReplacesLiveIff(s: System, steps: seq<Step>, t: nat, now: int)
    requires Reachable(s) && InFlight(s, t)
    requires Run(Next, s, steps).Some? && Enabled(Run(Next, s, steps).value, Store(t, now))
    ensures var s', k := Run(Next, s, steps).value, s.tasks[t].key;
            && s'.tasks[t].key == k
            && (PooledAlive(s', k) <==> k in s.pool.idle && Alive(s', s.pool.idle[k].client))
            && (PooledAlive(s', k) ==> Pooled(s'.pool, k) == Pooled(s.pool, k))
    decreases |steps|
  {
    hide Reachable, Sound;
    if steps != [] {
      hide Take, Enabled;
      var next := Take(s, steps[0]);
      ReachableSound(s);
      ReachedNext(s, steps[0]);
      InFlightStep(s, steps[0], t);
      if Answered(next, t) {
        StaysAnswered(next, steps[1..], t);
        AnsweredStoresNothing(Run(Next, s, steps).value, t, now);
      } else {
        ReplacesLiveIff(next, steps[1..], t, now);
        var k := s.tasks[t].key;
        if k in s.pool.idle && k !in next.pool.idle {
          NeverRevived(s, steps, s.pool.idle[k].client);
        }
      }
    }
  }

  lemma AnsweredStoresNothing(s: System, t: nat, now: int)
    requires Answered(s, t)
    ensures !Enabled(s, Store(t, now))
  {
  }

  /** The pool's state just before a dial begins says what its connection will replace, if it comes to be stored. */
  lemma {:induction false} DialReplacesIff(s: System, t: nat, steps: seq<Step>, now: int)
    requires Reachable(s) && Enabled(s, BeginDial(t)) && s.tasks[t].key !in s.pool.connecting
    requires var s1 := Take(s, BeginDial(t)); Run(Next, s1, steps).Some? && Enabled(Run(Next, s1, steps).value, Store(t, now))
    ensures var s', k := Run(Next, Take(s, BeginDial(t)), steps).value, s.tasks[t].key;
            s'.tasks[t].key == k && (PooledAlive(s', k) <==> k in s.pool.idle && Alive(s', s.pool.idle[k].client))
  {
    hide Reachable;
    ReachedNext(s, BeginDial(t));
    ReplacesLiveIff(Take(s, BeginDial(t)), steps, t, now);
  }

  /** Some run on from the beginning of the dial ends with the dial's connection about to replace a live one. */
  ghost predicate MayReplaceLive(s: System, t: nat)
    requires Enabled(s, BeginDial(t))
  {
    exists s' :: Leads(Next, Take(s, BeginDial(t)), s') && Enabled(s', Store(t, 0)) && PooledAlive(s', s'.tasks[t].key)
  }

  lemma LiveCanBeReplaced(s: System, t: nat)
    requires Enabled(s, BeginDial(t)) && s.tasks[t].key !in s.pool.connecting && PooledAlive(s, s.tasks[t].key)
    ensures MayReplaceLive(s, t)
  {
    hide Leads;
    var s1 := Take(s, BeginDial(t));
    var c := UnusedNumber(s1.made.Keys + s1.channels.Keys);
    LeadsNowhere(Next, s1);
    LeadsStep(s1, s1, DialSucceeds(t, c));
    assert PooledAlive(Take(s1, DialSucceeds(t, c)), s.tasks[t].key);
  }

  /** A task about to dial can come to replace a live connection if and only if its key is free and pooled alive. */
  lemma {:induction false} MayReplaceIff(s: System, t: nat)
    requires Reachable(s) && Enabled(s, BeginDial(t))
    ensures MayReplaceLive(s, t) <==> s.tasks[t].key !in s.pool.connecting && PooledAlive(s, s.tasks[t].key)
  {
    hide Reachable, Sound;
    var k, s1 := s.tasks[t].key, Take(s, BeginDial(t));
    if s' :| Leads(Next, s1, s') && Enabled(s', Store(t, 0)) && PooledAlive(s', s'.tasks[t].key) {
      var steps: seq<Step> :| Run(Next, s1, steps) == Some(s');
      if k in s.pool.connecting {
        StaysAnswered(s1, steps, t);
        AnsweredStoresNothing(s', t, 0);
      } else {
        DialReplacesIff(s, t, steps, 0);
        ReplacedWasAlive(s, s1, steps, k);
      }
    }
    if k !in s.pool.connecting && PooledAlive(s, k) {
      LiveCanBeReplaced(s, t);
    }
  }

  lemma ReplacedWasAlive(s: System, s1: System, steps: seq<Step>, k: Key)
    requires Reachable(s) && s1.channels == s.channels && Run(Next, s1, steps).Some?
    requires k in s.pool.idle && Alive(Run(Next, s1, steps).value, s.pool.idle[k].client)
    ensures PooledAlive(s, k)
  {
    hide Reachable, Run, ConnectingAccounted, OneHolder, RightKeys;
    ReachableSound(s);
    if !Alive(s1, s.pool.idle[k].client) {
      NeverRevived(s1, steps, s.pool.idle[k].client);
    }
  }

  // ----- from the start -----

  lemma ReachedAs(s: System, step: Step, next: System)
    requires Reachable(s) && Enabled(s, step)
    requires var r := Take(s, step);
             && r.pool.connecting == next.pool.connecting && r.pool.idle == next.pool.idle
             && r.tasks == next.tasks && r.made == next.made && r.channels == next.channels
    ensures Reachable(next)
  {
    ReachedNext(s, step);
  }

  function TwoTasks(k: Key, pool: PoolState, a: Phase, b: Phase, made: map<nat, Key>, channels: map<nat, Channel>): System {
    System(pool, map[0 := Task(k, a), 1 := Task(k, b)], made, channels)
  }

  lemma StartReached()
    ensures Reachable(START)
  {
    LeadsNowhere(Next, START);
  }

  lemma BothMiss(k: Key)
    ensures Reachable(TwoTasks(k, START.pool, Missed, Missed, map[], map[]))
  {
    hide Reachable;
    StartReached();
    var s1 := START.(tasks := map[0 := Task(k, Asking)]);
    ReachedAs(START, Ask(0, k), s1);
    var s2 := TwoTasks(k, START.pool, Asking, Asking, map[], map[]);
    ReachedAs(s1, Ask(1, k), s2);
    var s3 := TwoTasks(k, START.pool, Missed, Asking, map[], map[]);
    ReachedAs(s2, TakePooled(0, 0), s3);
    ReachedAs(s3, TakePooled(1, 0), TwoTasks(k, START.pool, Missed, Missed, map[], map[]));
  }

  function FirstStored(k: Key): System {
    TwoTasks(k, PoolState({}, map[k := PoolConnection(0, 0)]), Served(0), Missed, map[0 := k], map[0 := OPENED])
  }

  lemma FirstStores(k: Key)
    ensures Reachable(FirstStored(k))
  {
    hide Reachable;
    BothMiss(k);
    var s1 := TwoTasks(k, PoolState({k}, map[]), Dialling, Missed, map[], map[]);
    ReachedAs(TwoTasks(k, START.pool, Missed, Missed, map[], map[]), BeginDial(0), s1);
    var s2 := TwoTasks(k, PoolState({k}, map[]), Connected(0), Missed, map[0 := k], map[0 := OPENED]);
    ReachedAs(s1, DialSucceeds(0, 0), s2);
    ReachedAs(s2, Store(0, 0), FirstStored(k));
  }

  /** With another task's dial between a miss and its own, a task can come to replace a live connection. */
  lemma ReplacedAfterLateDial(k: Key)
    ensures Reachable(FirstStored(k)) && Enabled(FirstStored(k), BeginDial(1)) && MayReplaceLive(FirstStored(k), 1)
  {
    hide Reachable, MayReplaceLive;
    FirstStores(k);
    MayReplaceIff(FirstStored(k), 1);
  }

  /** A dial can come to nothing, with nothing pooled: from then on the key is locked. */
  lemma DialCanBeLost(k: Key)
    ensures var s := TwoTasks(k, PoolState({k}, map[]), Lost, Missed, map[], map[]);
            Reachable(s) && IsLost(s, 0) && !CanBeDialled(s, k) && k !in s.pool.idle
  {
    hide Reachable, CanBeDialled;
    BothMiss(k);
    var s1 := TwoTasks(k, PoolState({k}, map[]), Dialling, Missed, map[], map[]);
    ReachedAs(TwoTasks(k, START.pool, Missed, Missed, map[], map[]), BeginDial(0), s1);
    var s := TwoTasks(k, PoolState({k}, map[]), Lost, Missed, map[], map[]);
    ReachedAs(s1, DialFails(0), s);
    assert IsLost(s, 0) && s.tasks[0].key == k;
    DialledAgainIff(s, k);
  }
}
