/**
  The live event stream: the server keeps a bounded log and sends every dashboard a snapshot and then
  frames in order; a dashboard keeps a bounded replica, and queues what arrives while it is paused.
 */
module Replication {
  import opened Basics

  const CLIENT_CAP: nat := 5000

  // ----- the newest n -----

  function TakeLast<E>(n: nat, s: seq<E>): (r: seq<E>)
    ensures |r| == Min(n, |s|)
  {
    if |s| > n then s[|s| - n..] else s
  }

  lemma TakeLastTwice<E>(n: nat, m: nat, s: seq<E>)
    requires n <= m
    ensures TakeLast(n, TakeLast(m, s)) == TakeLast(n, s)
  {
  }

  lemma TakeLastAppend<E>(n: nat, s: seq<E>, t: seq<E>)
    ensures TakeLast(n, TakeLast(n, s) + t) == TakeLast(n, s + t)
  {
  }

  /** What two histories have in common at the end, they still have in common after the same events. */
  lemma SameEndAppend<E>(n: nat, s: seq<E>, s': seq<E>, t: seq<E>)
    requires TakeLast(n, s) == TakeLast(n, s')
    ensures TakeLast(n, s + t) == TakeLast(n, s' + t)
  {
    TakeLastAppend(n, s, t);
    TakeLastAppend(n, s', t);
  }

  // ----- one dashboard, on values -----

  datatype Frame<E> = Snapshot(events: seq<E>) | Events(batch: seq<E>) | Clear

  /** How a dashboard came by its events: its last snapshot, the queue that met, and what has come since. */
  datatype History<E> = History(base: seq<E>, over: seq<E>, since: seq<E>)

  /** What a dashboard was told. */
  function Story<E>(h: History<E>): seq<E> {
    h.base + h.since
  }

  /** What it holds when nothing is cut off: the queue stays between the snapshot and the later events. */
  function Held<E>(h: History<E>): seq<E> {
    h.base + h.over + h.since
  }

  /** The replica of one dashboard; its history is kept for the statements only. */
  datatype Replica<E> = Replica(events: seq<E>, queued: seq<E>, paused: bool, history: History<E>)

  function Receive<E>(r: Replica<E>, f: Frame<E>): Replica<E> {
    match f
    case Snapshot(events) => r.(events := TakeLast(CLIENT_CAP, events), history := History(events, r.queued, []))
    case Events(batch) =>
      var history := r.history.(since := r.history.since + batch);
      if r.paused then r.(events := TakeLast(CLIENT_CAP, r.events), queued := r.queued + batch, history := history)
      else r.(events := TakeLast(CLIENT_CAP, r.events + batch), history := history)
    case Clear => r.(events := [], queued := [], history := History([], [], []))
  }

  function TogglePause<E>(r: Replica<E>): Replica<E> {
    if r.paused && |r.queued| > 0 then
      r.(paused := false, events := TakeLast(CLIENT_CAP, r.events + r.queued), queued := [])
    else r.(paused := !r.paused)
  }

  /** Everything the dashboard has, shown or queued. */
  function Known<E>(r: Replica<E>): seq<E> {
    r.events + r.queued
  }

  function ReceiveAll<E>(r: Replica<E>, frames: seq<Frame<E>>): Replica<E>
    decreases |frames|
  {
    if frames == [] then r else ReceiveAll(Receive(r, frames[0]), frames[1..])
  }

  // ----- histories -----

  /** What a frame does to an uncapped history. */
  function Retell<E>(h: seq<E>, f: Frame<E>): seq<E> {
    match f
    case Snapshot(events) => events
    case Events(batch) => h + batch
    case Clear => []
  }

  function RetellAll<E>(h: seq<E>, frames: seq<Frame<E>>): seq<E>
    decreases |frames|
  {
    if frames == [] then h else RetellAll(Retell(h, frames[0]), frames[1..])
  }

  lemma {:induction false} RetellSnoc<E>(h: seq<E>, frames: seq<Frame<E>>, f: Frame<E>)
    ensures RetellAll(h, frames + [f]) == Retell(RetellAll(h, frames), f)
    decreases |frames|
  {
    if frames == [] {
      assert (frames + [f])[1..] == [];
    } else {
      assert (frames + [f])[1..] == frames[1..] + [f];
      RetellSnoc(Retell(h, frames[0]), frames[1..], f);
    }
  }

  /** Nothing is queued unless the dashboard is paused, and up to its cap it knows what its history says. */
  predicate Tidy<E(==)>(r: Replica<E>) {
    (!r.paused ==> r.queued == []) && TakeLast(CLIENT_CAP, Known(r)) == TakeLast(CLIENT_CAP, Held(r.history))
  }

  /** A frame moves the story on, and leaves the replica in step with its history. */
  lemma ReceiveRetells<E>(r: Replica<E>, f: Frame<E>)
    requires Tidy(r)
    ensures Tidy(Receive(r, f)) && Story(Receive(r, f).history) == Retell(Story(r.history), f)
  {
    hide TakeLast;
    var r' := Receive(r, f);
    match f
    case Snapshot(events) =>
      TakeLastTwice(CLIENT_CAP, CLIENT_CAP, events);
      SameEndAppend(CLIENT_CAP, TakeLast(CLIENT_CAP, events), events, r.queued);
      assert Held(r'.history) == events + r.queued && Story(r'.history) == events;
    case Events(batch) =>
      BatchRetells(r, batch);
      assert Story(r'.history) == Story(r.history) + batch;
    case Clear =>
      assert Known(r') == [] && Held(r'.history) == [];
  }

  lemma BatchRetells<E>(r: Replica<E>, batch: seq<E>)
    requires Tidy(r)
    ensures Tidy(Receive(r, Events(batch)))
  {
    hide TakeLast;
    var c, r' := CLIENT_CAP, Receive(r, Events(batch));
    assert Held(r'.history) == Held(r.history) + batch;
    SameEndAppend(c, Known(r), Held(r.history), batch);
    if r.paused {
      TakeLastTwice(c, c, r.events);
      SameEndAppend(c, TakeLast(c, r.events), r.events, r.queued + batch);
      assert Known(r) + batch == r.events + (r.queued + batch);
    } else {
      assert Known(r) == r.events && Known(r') == TakeLast(c, r.events + batch);
      TakeLastTwice(c, c, r.events + batch);
    }
  }

  lemma ToggleIsTidy<E>(r: Replica<E>)
    requires Tidy(r)
    ensures Tidy(TogglePause(r)) && TogglePause(r).history == r.history
  {
    hide TakeLast;
    if r.paused && |r.queued| > 0 {
      assert Known(TogglePause(r)) == TakeLast(CLIENT_CAP, r.events + r.queued);
      TakeLastTwice(CLIENT_CAP, CLIENT_CAP, r.events + r.queued);
    }
  }

  lemma {:induction false} ReceiveAllRetells<E>(r: Replica<E>, frames: seq<Frame<E>>)
    requires Tidy(r)
    ensures Tidy(ReceiveAll(r, frames)) && Story(ReceiveAll(r, frames).history) == RetellAll(Story(r.history), frames)
    decreases |frames|
  {
    if frames != [] {
      hide Tidy, Story;
      ReceiveRetells(r, frames[0]);
      ReceiveAllRetells(Receive(r, frames[0]), frames[1..]);
    }
  }

  // ----- the whole system -----

  /** A dashboard, whether the server has it among its clients, and the frames still on their way to it. */
  datatype Peer<E> = Peer(connected: bool, channel: seq<Frame<E>>, replica: Replica<E>)

  datatype System<E> = System(log: seq<E>, peers: map<nat, Peer<E>>)

  datatype Step<E> =
    | Post(batch: seq<E>)      // POST with at least one valid line
    | Delete
    | Load(id: nat)            // a page is opened and fetches the log
    | Connect(id: nat)         // a dashboard opens or reopens the stream
    | Disconnect(id: nat)
    | Deliver(id: nat)         // the next frame arrives
    | Pause(id: nat)           // the pause button

  function NewReplica<E>(events: seq<E>): Replica<E> {
    Replica(events, [], false, History(events, [], []))
  }

  /** broadcast: the frame goes to every connected client. */
  function Broadcast<E>(peers: map<nat, Peer<E>>, f: Frame<E>): map<nat, Peer<E>> {
    map id | id in peers :: Hear(peers[id], f)
  }

  function Hear<E>(p: Peer<E>, f: Frame<E>): Peer<E> {
    if p.connected then p.(channel := p.channel + [f]) else p
  }

  function Next<E>(maxEvents: nat, s: System<E>, step: Step<E>): System<E> {
    match step
    case Post(batch) =>
      if batch == [] then s
      else System(TakeLast(maxEvents, s.log + batch), Broadcast(s.peers, Events(batch)))
    case Delete => System([], Broadcast(s.peers, Clear))
    case Load(id) => s.(peers := s.peers[id := Peer(false, [], NewReplica(s.log))])
    case Connect(id) =>
      if id in s.peers then s.(peers := s.peers[id := Peer(true, [Snapshot(s.log)], s.peers[id].replica)]) else s
    case Disconnect(id) =>
      if id in s.peers then s.(peers := s.peers[id := s.peers[id].(connected := false)]) else s
    case Deliver(id) =>
      if id in s.peers && s.peers[id].channel != [] then
        var p := s.peers[id];
        s.(peers := s.peers[id := p.(channel := p.channel[1..], replica := Receive(p.replica, p.channel[0]))])
      else s
    case Pause(id) =>
      if id in s.peers then s.(peers := s.peers[id := s.peers[id].(replica := TogglePause(s.peers[id].replica))]) else s
  }

  function Run<E>(maxEvents: nat, steps: seq<Step<E>>): System<E> {
    if steps == [] then System([], map[])
    else Next(maxEvents, Run(maxEvents, steps[..|steps| - 1]), steps[|steps| - 1])
  }

  /** The number of newest events both sides are bound to keep. */
  function CommonCap(maxEvents: nat): nat {
    Min(CLIENT_CAP, maxEvents)
  }

  predicate IsSuffix<E(==)>(s: seq<E>, t: seq<E>) {
    |s| <= |t| && s == t[|t| - |s|..]
  }

  function PostedBy<E>(step: Step<E>): seq<E> {
    if step.Post? then step.batch else []
  }

  /** All events ever posted, in order. */
  function Posted<E>(steps: seq<Step<E>>): seq<E> {
    if steps == [] then [] else Posted(steps[..|steps| - 1]) + PostedBy(steps[|steps| - 1])
  }

  /** The story the frames in flight lead a connected dashboard to: part of what was posted, and in step with the log. */
  ghost predicate Leads<E>(maxEvents: nat, log: seq<E>, posted: seq<E>, story: seq<E>) {
    && IsSuffix(story, posted)
    && TakeLast(CommonCap(maxEvents), story) == TakeLast(CommonCap(maxEvents), log)
  }

  ghost predicate OnTrack<E>(maxEvents: nat, log: seq<E>, posted: seq<E>, p: Peer<E>) {
    Tidy(p.replica) && (p.connected ==> Leads(maxEvents, log, posted, RetellAll(Story(p.replica.history), p.channel)))
  }

  ghost predicate AllOnTrack<E>(maxEvents: nat, s: System<E>, posted: seq<E>) {
    IsSuffix(s.log, posted) && forall id :: id in s.peers ==> OnTrack(maxEvents, s.log, posted, s.peers[id])
  }

  lemma SuffixAppend<E>(s: seq<E>, t: seq<E>, batch: seq<E>)
    requires IsSuffix(s, t)
    ensures IsSuffix(s + batch, t + batch)
  {
    assert t + batch == t[..|t| - |s|] + (s + batch);
  }

  lemma SuffixTakeLast<E>(n: nat, s: seq<E>, t: seq<E>)
    requires IsSuffix(s, t)
    ensures IsSuffix(TakeLast(n, s), t)
  {
  }

  lemma PostKeepsTrack<E>(maxEvents: nat, log: seq<E>, posted: seq<E>, p: Peer<E>, batch: seq<E>)
    requires OnTrack(maxEvents, log, posted, p)
    ensures OnTrack(maxEvents, TakeLast(maxEvents, log + batch), posted + batch, Hear(p, Events(batch)))
  {
    hide TakeLast, Tidy, IsSuffix;
    if p.connected {
      var story := RetellAll(Story(p.replica.history), p.channel);
      RetellSnoc(Story(p.replica.history), p.channel, Events(batch));
      SuffixAppend(story, posted, batch);
      SameEndAppend(CommonCap(maxEvents), story, log, batch);
      TakeLastTwice(CommonCap(maxEvents), maxEvents, log + batch);
    }
  }

  lemma DeleteKeepsTrack<E>(maxEvents: nat, log: seq<E>, posted: seq<E>, p: Peer<E>)
    requires OnTrack(maxEvents, log, posted, p)
    ensures OnTrack(maxEvents, [], posted, Hear(p, Clear))
  {
    hide Tidy;
    RetellSnoc(Story(p.replica.history), p.channel, Clear);
  }

  lemma DeliverKeepsTrack<E>(maxEvents: nat, log: seq<E>, posted: seq<E>, p: Peer<E>)
    requires OnTrack(maxEvents, log, posted, p) && p.channel != []
    ensures OnTrack(maxEvents, log, posted, p.(channel := p.channel[1..], replica := Receive(p.replica, p.channel[0])))
  {
    ReceiveRetells(p.replica, p.channel[0]);
    hide Tidy, Leads, Story;
  }

  lemma ConnectIsOnTrack<E>(maxEvents: nat, log: seq<E>, posted: seq<E>, p: Peer<E>)
    requires Tidy(p.replica) && IsSuffix(log, posted)
    ensures OnTrack(maxEvents, log, posted, Peer(true, [Snapshot(log)], p.replica))
  {
    assert [Snapshot(log)][1..] == [];
  }

  lemma LoadIsOnTrack<E>(maxEvents: nat, log: seq<E>, posted: seq<E>)
    ensures OnTrack(maxEvents, log, posted, Peer(false, [], NewReplica(log)))
  {
    assert Held(NewReplica(log).history) == log && Known(NewReplica(log)) == log;
  }

  /** Every step keeps every dashboard on track, with its frames in flight. */
  lemma NextKeepsTrack<E>(maxEvents: nat, s: System<E>, posted: seq<E>, step: Step<E>)
    requires AllOnTrack(maxEvents, s, posted)
    ensures AllOnTrack(maxEvents, Next(maxEvents, s, step), posted + PostedBy(step))
  {
    var s', posted' := Next(maxEvents, s, step), posted + PostedBy(step);
    LogIsPosted(maxEvents, s, posted, step);
    hide OnTrack, IsSuffix;
    forall id | id in s'.peers ensures OnTrack(maxEvents, s'.log, posted', s'.peers[id]) {
      PeerKeepsTrack(maxEvents, s, posted, step, id);
    }
  }

  lemma LogIsPosted<E>(maxEvents: nat, s: System<E>, posted: seq<E>, step: Step<E>)
    requires IsSuffix(s.log, posted)
    ensures IsSuffix(Next(maxEvents, s, step).log, posted + PostedBy(step))
  {
    SuffixAppend(s.log, posted, PostedBy(step));
    SuffixTakeLast(maxEvents, s.log + PostedBy(step), posted + PostedBy(step));
    if PostedBy(step) == [] {
      assert s.log + PostedBy(step) == s.log;
    }
  }

  lemma PeerKeepsTrack<E>(maxEvents: nat, s: System<E>, posted: seq<E>, step: Step<E>, id: nat)
    requires AllOnTrack(maxEvents, s, posted) && id in Next(maxEvents, s, step).peers
    ensures OnTrack(maxEvents, Next(maxEvents, s, step).log, posted + PostedBy(step), Next(maxEvents, s, step).peers[id])
  {
    if step.Load? && id == step.id {
      LoadIsOnTrack(maxEvents, s.log, posted);
    }
    if !step.Post? {
      assert posted + PostedBy(step) == posted;
    }
    hide IsSuffix, Tidy, Leads, NewReplica;
    if id in s.peers {
      var p := s.peers[id];
      match step
      case Post(batch) =>
        PostKeepsTrack(maxEvents, s.log, posted, p, batch);
        if batch == [] {
          assert posted + batch == posted;
        }
      case Delete => DeleteKeepsTrack(maxEvents, s.log, posted, p);
      case Connect(i) => ConnectIsOnTrack(maxEvents, s.log, posted, p);
      case Deliver(i) =>
        if i == id && p.channel != [] {
          DeliverKeepsTrack(maxEvents, s.log, posted, p);
        }
      case Pause(i) => ToggleIsTidy(p.replica);
      case Load(i) =>
      case Disconnect(i) =>
    }
  }

  lemma {:induction false} RunKeepsTrack<E>(maxEvents: nat, steps: seq<Step<E>>)
    ensures AllOnTrack(maxEvents, Run(maxEvents, steps), Posted(steps))
  {
    if steps != [] {
      hide AllOnTrack;
      RunKeepsTrack(maxEvents, steps[..|steps| - 1]);
      NextKeepsTrack(maxEvents, Run(maxEvents, steps[..|steps| - 1]), Posted(steps[..|steps| - 1]), steps[|steps| - 1]);
    }
  }

  // ----- convergence -----

  /** What a dashboard will be once it has received all frames in flight. */
  function Settled<E>(p: Peer<E>): Replica<E> {
    ReceiveAll(p.replica, p.channel)
  }

  /** A dashboard knows the newest events of the log, up to the smaller of the two caps. */
  predicate Agrees<E(==)>(maxEvents: nat, r: Replica<E>, log: seq<E>) {
    TakeLast(CommonCap(maxEvents), Known(r)) == TakeLast(CommonCap(maxEvents), log)
  }

  /**
    In every run of posts, deletes, page loads, connects, disconnects, deliveries and pauses: once a
    connected dashboard has settled, the log ends like its story, and what it knows like what it holds.
   */
  lemma SettledDashboards<E>(maxEvents: nat, steps: seq<Step<E>>, id: nat)
    requires id in Run(maxEvents, steps).peers && Run(maxEvents, steps).peers[id].connected
    ensures var r, log, c := Settled(Run(maxEvents, steps).peers[id]), Run(maxEvents, steps).log, CommonCap(maxEvents);
            && TakeLast(c, Known(r)) == TakeLast(c, Held(r.history))
            && TakeLast(c, log) == TakeLast(c, Story(r.history))
            && IsSuffix(Story(r.history), Posted(steps))
  {
    RunKeepsTrack(maxEvents, steps);
    var p := Run(maxEvents, steps).peers[id];
    ReceiveAllRetells(p.replica, p.channel);
    var r := Settled(p);
    hide TakeLast, IsSuffix;
    TakeLastTwice(CommonCap(maxEvents), CLIENT_CAP, Known(r));
    TakeLastTwice(CommonCap(maxEvents), CLIENT_CAP, Held(r.history));
  }

  /** Convergence: a settled dashboard whose last snapshot met no queue agrees with the log. */
  lemma ConnectedDashboardsConverge<E>(maxEvents: nat, steps: seq<Step<E>>, id: nat)
    requires id in Run(maxEvents, steps).peers && Run(maxEvents, steps).peers[id].connected
    ensures var r := Settled(Run(maxEvents, steps).peers[id]);
            r.history.over == [] ==> Agrees(maxEvents, r, Run(maxEvents, steps).log)
  {
    SettledDashboards(maxEvents, steps, id);
    hide TakeLast, IsSuffix, Run, ReceiveAll;
    var r := Settled(Run(maxEvents, steps).peers[id]);
    if r.history.over == [] {
      assert Held(r.history) == Story(r.history);
    }
  }

  predicate NoRepeats<E(==)>(s: seq<E>) {
    forall i, j :: 0 <= i < j < |s| ==> s[i] != s[j]
  }

  /** The queue and what came after the snapshot fill the cap by themselves, and with the right events. */
  predicate QueueFills<E(==)>(c: nat, h: History<E>) {
    c <= |h.over + h.since| && TakeLast(c, h.over + h.since) == TakeLast(c, Story(h))
  }

  /** Exactly when the queue under a snapshot does no harm: nothing was queued, or nothing older is needed. */
  lemma SnapshotOverQueueIff<E>(c: nat, h: History<E>)
    requires NoRepeats(Story(h))
    ensures TakeLast(c, Held(h)) == TakeLast(c, Story(h)) <==> h.over == [] || QueueFills(c, h)
  {
    var held, told, later := Held(h), Story(h), h.over + h.since;
    assert held == h.base + later;
    if h.over == [] {
      assert held == told;
    } else if c <= |later| {
      assert TakeLast(c, held) == TakeLast(c, later);
    } else if |told| < c {
      assert |TakeLast(c, held)| > |TakeLast(c, told)|;
    } else {
      var i, last := c - 1 - |later|, |h.base| - 1;
      assert TakeLast(c, held)[i] == held[|held| - c + i] == h.base[last] == told[last];
      assert TakeLast(c, told)[i] == told[|told| - c + i] && |told| - c + i < last;
    }
  }

  /**
    The exact condition, in every run whose posted events are distinct, as events with unique ids are: a
    settled dashboard agrees with the log iff its last snapshot met no queue, or the queue it met and the
    events since then are the log's newest.
   */
  lemma ConvergenceIff<E>(maxEvents: nat, steps: seq<Step<E>>, id: nat)
    requires id in Run(maxEvents, steps).peers && Run(maxEvents, steps).peers[id].connected
    requires NoRepeats(Posted(steps))
    ensures var r := Settled(Run(maxEvents, steps).peers[id]);
            Agrees(maxEvents, r, Run(maxEvents, steps).log)
            <==> r.history.over == [] || QueueFills(CommonCap(maxEvents), r.history)
  {
    SettledDashboards(maxEvents, steps, id);
    var r := Settled(Run(maxEvents, steps).peers[id]);
    SuffixHasNoRepeats(Story(r.history), Posted(steps));
    hide TakeLast, NoRepeats, IsSuffix, Run, ReceiveAll;
    SnapshotOverQueueIff(CommonCap(maxEvents), r.history);
  }

  lemma SuffixHasNoRepeats<E>(s: seq<E>, t: seq<E>)
    requires IsSuffix(s, t) && NoRepeats(t)
    ensures NoRepeats(s)
  {
  }

  /** The caps in numbers: both sides are bound to keep at most 5000 events, and a dashboard shows no more. */
  lemma CapsAre<E>(maxEvents: nat, r: Replica<E>, f: Frame<E>)
    ensures CommonCap(maxEvents) == if maxEvents < 5000 then maxEvents else 5000
    ensures |Receive(r, f).events| <= 5000
    ensures |TogglePause(r).events| <= if |r.events| > 5000 then |r.events| else 5000
  {
  }

  /** Whatever queue a snapshot met, as many events as the cap repair it. */
  lemma NewEventsRepair<E>(maxEvents: nat, steps: seq<Step<E>>, id: nat)
    requires id in Run(maxEvents, steps).peers && Run(maxEvents, steps).peers[id].connected
    ensures var r := Settled(Run(maxEvents, steps).peers[id]);
            |r.history.since| >= CommonCap(maxEvents) ==> Agrees(maxEvents, r, Run(maxEvents, steps).log)
  {
    SettledDashboards(maxEvents, steps, id);
    var r, c := Settled(Run(maxEvents, steps).peers[id]), CommonCap(maxEvents);
    hide TakeLast, IsSuffix, Run, ReceiveAll;
    if |r.history.since| >= c {
      EndsWith(c, r.history.base + r.history.over, r.history.since);
      EndsWith(c, r.history.base, r.history.since);
    }
  }

  lemma EndsWith<E>(c: nat, s: seq<E>, t: seq<E>)
    requires |t| >= c
    ensures TakeLast(c, s + t) == TakeLast(c, t)
  {
  }

  /** A run that breaks: pause, let one event queue up, reconnect. The event is then held twice. */
  lemma ReconnectWhilePausedBreaks<E>(maxEvents: nat, event: E)
    requires maxEvents >= 2
    ensures var steps := [Load(0), Connect(0), Deliver(0), Pause(0), Post([event]), Deliver(0), Connect(0), Deliver(0)];
            var s := Run(maxEvents, steps);
            && 0 in s.peers && s.peers[0].connected && s.peers[0].channel == [] && s.log == [event]
            && Known(s.peers[0].replica) == [event, event]
            && TakeLast(CommonCap(maxEvents), Known(s.peers[0].replica)) != TakeLast(CommonCap(maxEvents), s.log)
  {
    ConnectedAndPaused<E>(maxEvents);
    var start: seq<Step<E>> := [Load(0), Connect(0), Deliver(0), Pause(0)];
    RunFour(maxEvents, start, Post([event]), Deliver(0), Connect(0), Deliver(0));
    hide Run;
    QueuedTwice(maxEvents, event);
    assert start + [Post([event]), Deliver(0), Connect(0), Deliver(0)]
           == [Load(0), Connect(0), Deliver(0), Pause(0), Post([event]), Deliver(0), Connect(0), Deliver(0)];
  }

  lemma QueuedTwice<E>(maxEvents: nat, event: E)
    requires maxEvents >= 2
    ensures var s := Alone([], true, [], Replica([], [], true, History([], [], [])));
            Next(maxEvents, Next(maxEvents, Next(maxEvents, Next(maxEvents, s, Post([event])), Deliver(0)), Connect(0)), Deliver(0))
            == Alone([event], true, [], Replica([event], [event], true, History([event], [event], [])))
  {
    var empty: Replica<E> := Replica([], [], true, History([], [], []));
    PostAlone(maxEvents, [], [], empty, [event]);
    assert [] + [Events([event])] == [Events([event])] && [Events([event])][1..] == [] && [] + [event] == [event];
    assert Next(maxEvents, Alone([event], true, [Events([event])], empty), Deliver(0))
           == Alone([event], true, [], empty.(queued := [event], history := History([], [], [event])));
    assert [Snapshot([event])][1..] == [];
  }

  lemma ConnectedAndPaused<E>(maxEvents: nat)
    ensures Run<E>(maxEvents, [Load(0), Connect(0), Deliver(0), Pause(0)]) == Alone([], true, [], Replica([], [], true, History([], [], [])))
  {
    var steps: seq<Step<E>> := [Load(0), Connect(0), Deliver(0), Pause(0)];
    RunFour<E>(maxEvents, [], Load(0), Connect(0), Deliver(0), Pause(0));
    assert [] + steps == steps && Run<E>(maxEvents, []) == System([], map[]);
    hide Run;
    OpenedAndPaused<E>(maxEvents);
  }

  lemma OpenedAndPaused<E>(maxEvents: nat)
    ensures var none: System<E> := System([], map[]);
            Next(maxEvents, Next(maxEvents, Next(maxEvents, Next(maxEvents, none, Load(0)), Connect(0)), Deliver(0)), Pause(0))
            == Alone([], true, [], Replica([], [], true, History([], [], [])))
  {
    var none: System<E> := System([], map[]);
    var loaded: Replica<E> := NewReplica([]);
    var snapshot: seq<Frame<E>> := [Snapshot([])];
    assert snapshot[1..] == [];
    assert Next(maxEvents, none, Load(0)) == Alone([], false, [], loaded);
    assert Next(maxEvents, Alone([], false, [], loaded), Connect(0)) == Alone([], true, snapshot, loaded);
    assert Next(maxEvents, Alone([], true, snapshot, loaded), Deliver(0)) == Alone([], true, [], loaded);
  }

  /** A system with one dashboard. */
  function Alone<E>(log: seq<E>, connected: bool, channel: seq<Frame<E>>, replica: Replica<E>): System<E> {
    System(log, map[0 := Peer(connected, channel, replica)])
  }

  lemma PostAlone<E>(maxEvents: nat, log: seq<E>, channel: seq<Frame<E>>, replica: Replica<E>, batch: seq<E>)
    requires batch != []
    ensures Next(maxEvents, Alone(log, true, channel, replica), Post(batch))
            == Alone(TakeLast(maxEvents, log + batch), true, channel + [Events(batch)], replica)
  {
    var peers := Alone(log, true, channel, replica).peers;
    assert Broadcast(peers, Events(batch)) == map[0 := Peer(true, channel + [Events(batch)], replica)];
  }

  lemma RunFour<E>(maxEvents: nat, steps: seq<Step<E>>, a: Step<E>, b: Step<E>, c: Step<E>, d: Step<E>)
    ensures Run(maxEvents, steps + [a, b, c, d])
            == Next(maxEvents, Next(maxEvents, Next(maxEvents, Next(maxEvents, Run(maxEvents, steps), a), b), c), d)
  {
    assert steps + [a, b, c, d] == steps + [a] + [b] + [c] + [d];
    RunSnoc(maxEvents, steps, a);
    RunSnoc(maxEvents, steps + [a], b);
    RunSnoc(maxEvents, steps + [a] + [b], c);
    RunSnoc(maxEvents, steps + [a] + [b] + [c], d);
  }

  lemma RunSnoc<E>(maxEvents: nat, steps: seq<Step<E>>, step: Step<E>)
    ensures Run(maxEvents, steps + [step]) == Next(maxEvents, Run(maxEvents, steps), step)
  {
    assert (steps + [step])[..|steps|] == steps;
  }
}
