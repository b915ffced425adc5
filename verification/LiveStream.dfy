/**
  The event stream as its two ends keep it: the server's bounded array and client set, and the
  dashboard's state with its revision counter and memoised process index. Each handler is proved to do
  what the functions of Replication say.
 */
module LiveStream {
  import opened Replication

  // ----- the server -----

  /** The response stream of one client; frames are written to it in order. */
  class Stream<E> {
    var frames: seq<Frame<E>>

    constructor (first: Frame<E>)
      ensures frames == [first]
    {
      frames := [first];
    }
  }

  datatype Reply = Accepted(accepted: nat, total: nat) | Rejected

  class Server<E> {
    const maxEvents: nat
    var events: seq<E>
    var clients: set<Stream<E>>

    constructor (maxEvents: nat)
      ensures this.maxEvents == maxEvents && events == [] && clients == {}
    {
      this.maxEvents := maxEvents;
      events := [];
      clients := {};
    }

    method Broadcast(frame: Frame<E>)
      modifies clients
      ensures forall c :: c in clients ==> c.frames == old(c.frames) + [frame]
    {
      var left := clients;
      while left != {}
        invariant left <= clients
        invariant forall c :: c in clients ==> c.frames == old(c.frames) + if c in left then [] else [frame]
      {
        var client :| client in left;
        client.frames := client.frames + [frame];
        left := left - {client};
      }
    }

    /** POST /api/events with the lines that parsed. */
    method Post(parsed: seq<E>) returns (reply: Reply)
      modifies this`events, clients
      ensures if parsed == [] then
                reply == Rejected && events == old(events) && forall c :: c in clients ==> c.frames == old(c.frames)
              else
                && events == TakeLast(maxEvents, old(events) + parsed) && reply == Accepted(|parsed|, |events|)
                && forall c :: c in clients ==> c.frames == old(c.frames) + [Events(parsed)]
    {
      if |parsed| == 0 {
        return Rejected;
      }
      events := events + parsed;
      if |events| > maxEvents {
        events := events[|events| - maxEvents..];
      }
      Broadcast(Events(parsed));
      reply := Accepted(|parsed|, |events|);
    }

    /** DELETE /api/events */
    method Delete()
      modifies this`events, clients
      ensures events == [] && forall c :: c in clients ==> c.frames == old(c.frames) + [Clear]
    {
      events := [];
      Broadcast(Clear);
    }

    /** GET /api/events/stream: the snapshot is written before the client joins the broadcast. */
    method Connect() returns (client: Stream<E>)
      modifies this`clients
      ensures fresh(client) && client.frames == [Snapshot(events)] && clients == old(clients) + {client}
    {
      client := new Stream(Snapshot(events));
      clients := clients + {client};
    }

    method Close(client: Stream<E>)
      modifies this`clients
      ensures clients == old(clients) - {client}
    {
      clients := clients - {client};
    }
  }

  // ----- the dashboard, on values -----

  /** A dashboard with its revision counter and the events its process index was last built from. */
  datatype View<E> = View(replica: Replica<E>, revision: nat, memoRevision: int, memoEvents: seq<E>)

  datatype Action<E> = Fetch(events: seq<E>) | Receipt(frame: Frame<E>) | Toggle | Render

  function StartView<E>(): View<E> {
    View(Replica([], [], false, History([], [], [])), 0, -1, [])
  }

  function Act<E>(v: View<E>, a: Action<E>): View<E> {
    match a
    case Fetch(events) => v.(replica := v.replica.(events := events, history := History(events, v.replica.queued, [])))
    case Receipt(frame) =>
      v.(replica := Receive(v.replica, frame),
         revision := if frame.Events? && v.replica.paused then v.revision else v.revision + 1)
    case Toggle =>
      v.(replica := TogglePause(v.replica),
         revision := if v.replica.paused && |v.replica.queued| > 0 then v.revision + 1 else v.revision)
    case Render =>
      if v.memoRevision != v.revision then v.(memoRevision := v.revision, memoEvents := v.replica.events) else v
  }

  function ActAll<E>(actions: seq<Action<E>>): View<E> {
    if actions == [] then StartView() else Act(ActAll(actions[..|actions| - 1]), actions[|actions| - 1])
  }

  /** The memoised index, if its stamp is current, was built from the current events. */
  predicate Fresh<E(==)>(v: View<E>) {
    v.memoRevision <= v.revision && (v.memoRevision == v.revision ==> v.memoEvents == v.replica.events)
  }

  /** The order the page guarantees: the log is fetched before anything else, and a stream opens with its snapshot. */
  predicate Orderly<E>(actions: seq<Action<E>>) {
    forall i :: 0 <= i < |actions| ==>
      && (actions[i].Fetch? ==> i == 0)
      && (actions[i].Receipt? && actions[i].frame.Events? ==>
            exists j :: 0 <= j < i && actions[j].Receipt? && actions[j].frame.Snapshot?)
  }

  /** Once a snapshot has been received the replica stays within its cap. */
  predicate Bounded<E>(v: View<E>, actions: seq<Action<E>>) {
    (exists j :: 0 <= j < |actions| && actions[j].Receipt? && actions[j].frame.Snapshot?) ==> |v.replica.events| <= CLIENT_CAP
  }

  lemma {:induction false} OrderlyIsFresh<E>(actions: seq<Action<E>>)
    requires Orderly(actions)
    ensures Fresh(ActAll(actions)) && Bounded(ActAll(actions), actions)
  {
    if actions != [] {
      var init, last := actions[..|actions| - 1], actions[|actions| - 1];
      assert Orderly(init) by {
        forall i | 0 <= i < |init| && init[i].Receipt? && init[i].frame.Events?
          ensures exists j :: 0 <= j < i && init[j].Receipt? && init[j].frame.Snapshot?
        {
          var j :| 0 <= j < i && actions[j].Receipt? && actions[j].frame.Snapshot?;
          assert init[j] == actions[j];
        }
      }
      OrderlyIsFresh(init);
      if last.Fetch? {
        assert init == [];
      }
      if last.Receipt? && last.frame.Events? {
        var j :| 0 <= j < |actions| - 1 && actions[j].Receipt? && actions[j].frame.Snapshot?;
        assert init[j] == actions[j];
      }
      if j :| 0 <= j < |actions| && actions[j].Receipt? && actions[j].frame.Snapshot? {
        if j < |init| {
          assert init[j] == actions[j];
        }
      }
    }
  }

  /** Every rendering of an orderly page uses a process index built from the events it shows. */
  lemma RenderUsesCurrentEvents<E>(actions: seq<Action<E>>)
    requires Orderly(actions)
    ensures var v := Act(ActAll(actions), Render);
            v.memoEvents == v.replica.events && v.memoRevision == v.revision
  {
    OrderlyIsFresh(actions);
  }

  /** Loading the log after a rendering leaves a stale index unless the same events come back: it bumps no revision. */
  lemma LateLoadIsFreshIff<E>(v: View<E>, events: seq<E>)
    ensures var v' := Act(Act(Act(v, Render), Fetch(events)), Render);
            v'.memoEvents == v'.replica.events <==> events == Act(v, Render).memoEvents
  {
  }

  // ----- the dashboard, as it runs -----

  class Dashboard<E, I> {
    /** buildProcessIdentityIndex */
    const build: seq<E> -> I
    var events: seq<E>
    var queued: seq<E>
    var paused: bool
    var eventsRevision: nat
    var processIdentityRevision: int
    var processIdentityByPid: I
    ghost var history: History<E>
    ghost var memoEvents: seq<E>

    ghost function View(): View<E>
      reads this
    {
      ViewOf(events, queued, paused, history, eventsRevision, processIdentityRevision, memoEvents)
    }

    ghost predicate Valid()
      reads this
    {
      processIdentityByPid == build(memoEvents)
    }

    constructor (build: seq<E> -> I)
      ensures Valid() && View() == StartView() && this.build == build
    {
      this.build := build;
      events, queued, paused, eventsRevision := [], [], false, 0;
      processIdentityRevision := -1;
      processIdentityByPid := build([]);
      history, memoEvents := History([], [], []), [];
    }

    method LoadSnapshot(fetched: seq<E>)
      requires Valid()
      modifies this`events, this`history
      ensures Valid() && View() == Act(old(View()), Fetch(fetched))
    {
      events := fetched;
      history := History(fetched, queued, []);
    }

    method TrimEvents()
      modifies this`events
      ensures events == TakeLast(CLIENT_CAP, old(events))
    {
      if |events| > CLIENT_CAP {
        events := events[|events| - CLIENT_CAP..];
      }
    }

    method MarkEventsChanged()
      modifies this`eventsRevision
      ensures eventsRevision == old(eventsRevision) + 1
    {
      eventsRevision := eventsRevision + 1;
    }

    method OnSnapshot(snapshot: seq<E>)
      requires Valid()
      modifies this`events, this`eventsRevision, this`history
      ensures Valid() && View() == Act(old(View()), Receipt(Snapshot(snapshot)))
    {
      events := snapshot;
      TrimEvents();
      MarkEventsChanged();
      history := History(snapshot, queued, []);
    }

    method OnEvents(incoming: seq<E>)
      requires Valid()
      modifies this`events, this`queued, this`eventsRevision, this`history
      ensures Valid() && View() == Act(old(View()), Receipt(Events(incoming)))
    {
      history := history.(since := history.since + incoming);
      if paused {
        queued := queued + incoming;
      } else {
        events := events + incoming;
        MarkEventsChanged();
      }
      TrimEvents();
    }

    method OnClear()
      requires Valid()
      modifies this`events, this`queued, this`eventsRevision, this`history
      ensures Valid() && View() == Act(old(View()), Receipt(Clear))
    {
      events := [];
      queued := [];
      MarkEventsChanged();
      history := History([], [], []);
    }

    method OnPauseButton()
      requires Valid()
      modifies this`paused, this`events, this`queued, this`eventsRevision
      ensures Valid() && View() == Act(old(View()), Toggle)
    {
      paused := !paused;
      if !paused && |queued| > 0 {
        events := events + queued;
        queued := [];
        TrimEvents();
        MarkEventsChanged();
      }
    }

    /** getProcessIdentityIndex, as a rendering calls it. */
    method GetProcessIdentityIndex() returns (index: I)
      requires Valid()
      modifies this`processIdentityByPid, this`processIdentityRevision, this`memoEvents
      ensures Valid() && View() == Act(old(View()), Render)
      ensures Fresh(old(View())) ==> index == build(events)
    {
      if processIdentityRevision != eventsRevision {
        processIdentityByPid := build(events);
        processIdentityRevision := eventsRevision;
        memoEvents := events;
      }
      index := processIdentityByPid;
    }
  }

  /** A page carries out its actions and is rendered: the index is that of the events it then shows. */
  method ShowPage<E, I>(build: seq<E> -> I, actions: seq<Action<E>>) returns (dashboard: Dashboard<E, I>, index: I)
    requires Orderly(actions)
    ensures dashboard.Valid() && dashboard.View() == Act(ActAll(actions), Render)
    ensures index == build(ActAll(actions).replica.events)
  {
    dashboard := new Dashboard(build);
    for i := 0 to |actions|
      invariant fresh(dashboard) && dashboard.Valid() && dashboard.build == build
      invariant dashboard.View() == ActAll(actions[..i])
    {
      assert actions[..i + 1][..i] == actions[..i];
      match actions[i] {
        case Fetch(events) => dashboard.LoadSnapshot(events);
        case Receipt(frame) =>
          match frame {
            case Snapshot(events) => dashboard.OnSnapshot(events);
            case Events(batch) => dashboard.OnEvents(batch);
            case Clear => dashboard.OnClear();
          }
        case Toggle => dashboard.OnPauseButton();
        case Render => var _ := dashboard.GetProcessIdentityIndex();
      }
    }
    assert actions[..|actions|] == actions;
    OrderlyIsFresh(actions);
    index := dashboard.GetProcessIdentityIndex();
  }

  function ViewOf<E>(events: seq<E>, queued: seq<E>, paused: bool, history: History<E>, revision: nat, memoRevision: int,
                     memoEvents: seq<E>): View<E> {
    View(Replica(events, queued, paused, history), revision, memoRevision, memoEvents)
  }
}
