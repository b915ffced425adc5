/**
  The server and its dashboards put together. Every step is carried out by their handlers, and is proved
  to be the step of the system of Replication; a rendering always shows an index of its current events.
 */
module LiveSystem {
  import opened Replication
  import opened LiveStream

  /** A page: its dashboard, the stream it opened last, and how many of the stream's frames have arrived. */
  datatype Page<E, I> = Page(dashboard: Dashboard<E, I>, stream: Stream?<E>, read: nat)

  /** The frames of a stream open with a snapshot, and channel is what of them is still to arrive. */
  predicate Carries<E(==)>(frames: seq<Frame<E>>, read: nat, channel: seq<Frame<E>>) {
    read <= |frames| && frames != [] && frames[0].Snapshot? && channel == frames[read..]
  }

  lemma CarriesMore<E>(frames: seq<Frame<E>>, read: nat, channel: seq<Frame<E>>, frame: Frame<E>)
    requires Carries(frames, read, channel)
    ensures Carries(frames + [frame], read, channel + [frame])
  {
  }

  function PartsOf<E, I>(page: Page<E, I>): set<object> {
    {page.dashboard} + if page.stream != null then {page.stream} else {}
  }

  /** Two pages share neither dashboard nor stream. */
  ghost predicate Apart<E, I>(a: Page<E, I>, b: Page<E, I>) {
    a.dashboard != b.dashboard && (a.stream != null ==> a.stream != b.stream)
  }

  ghost predicate AllApart<E, I>(pages: map<nat, Page<E, I>>) {
    forall id, other :: id in pages && other in pages && id != other ==> Apart(pages[id], pages[other])
  }

  /** Everything a page consists of is among the parts. */
  ghost predicate Owned<E, I>(pages: map<nat, Page<E, I>>, parts: set<object>) {
    forall id :: id in pages ==> pages[id].dashboard in parts && (pages[id].stream != null ==> pages[id].stream in parts)
  }

  lemma StillApart<E, I>(pages: map<nat, Page<E, I>>, id: nat, page: Page<E, I>, parts: set<object>)
    requires AllApart(pages) && Owned(pages, parts)
    requires forall other :: other in pages && other != id ==> Apart(page, pages[other])
    ensures AllApart(pages[id := page]) && Owned(pages[id := page], parts + PartsOf(page))
  {
  }

  class Site<E, I> {
    const server: Server<E>
    const build: seq<E> -> I
    var pages: map<nat, Page<E, I>>
    /** The system as Replication sees it. */
    ghost var state: System<E>
    ghost var parts: set<object>

    /** The dashboard keeps this replica, and its process index is not out of date. */
    ghost predicate Keeps(dashboard: Dashboard<E, I>, replica: Replica<E>)
      reads dashboard
    {
      dashboard.Valid() && dashboard.build == build && Fresh(dashboard.View()) && dashboard.View().replica == replica
    }

    /** The page is what the system has as this peer; a snapshot bounds its events. */
    ghost predicate Shows(page: Page<E, I>, peer: Peer<E>)
      reads server, page.dashboard, page.stream
    {
      && Keeps(page.dashboard, peer.replica)
      && (page.stream == null ==> !peer.connected && peer.channel == [])
      && (page.stream != null ==>
            && peer.connected == (page.stream in server.clients) && Carries(page.stream.frames, page.read, peer.channel)
            && (page.read > 0 ==> |peer.replica.events| <= CLIENT_CAP))
    }

    ghost predicate Valid()
      reads this, server, parts
    {
      && state.log == server.events && Owned(pages, parts)
      && (forall id :: id in pages <==> id in state.peers)
      && (forall id :: id in pages ==> Shows(pages[id], state.peers[id]))
      && AllApart(pages)
    }

    constructor (maxEvents: nat, build: seq<E> -> I)
      ensures Valid() && state == Run(maxEvents, []) && server.maxEvents == maxEvents && this.build == build
      ensures fresh(server) && server.clients == {} && parts == {}
    {
      server := new Server(maxEvents);
      this.build := build;
      pages := map[];
      state := System([], map[]);
      parts := {};
    }

    method Post(parsed: seq<E>) returns (reply: Reply)
      requires Valid()
      modifies this`state, server`events, server.clients
      ensures Valid() && state == Next(server.maxEvents, old(state), Step.Post(parsed))
    {
      hide Keeps, Carries, AllApart, Owned, TakeLast;
      reply := server.Post(parsed);
      if parsed != [] {
        forall id | id in pages ensures Shows(pages[id], Hear(state.peers[id], Events(parsed))) {
          var page := pages[id];
          assert old(Shows(page, state.peers[id]));
          if page.stream != null {
            CarriesMore(old(page.stream.frames), page.read, state.peers[id].channel, Events(parsed));
          }
        }
      }
      Become(Next(server.maxEvents, state, Step.Post(parsed)));
    }

    method Delete()
      requires Valid()
      modifies this`state, server`events, server.clients
      ensures Valid() && state == Next(server.maxEvents, old(state), Step.Delete)
    {
      hide Keeps, Carries, AllApart, Owned, TakeLast;
      server.Delete();
      forall id | id in pages ensures Shows(pages[id], Hear(state.peers[id], Clear)) {
        var page := pages[id];
        assert old(Shows(page, state.peers[id]));
        if page.stream != null {
          CarriesMore(old(page.stream.frames), page.read, state.peers[id].channel, Clear);
        }
      }
      Become(Next(server.maxEvents, state, Step.Delete));
    }

    /** A page is opened: a new dashboard fetches the log. */
    method Load(id: nat)
      requires Valid()
      modifies this`state, this`pages, this`parts, server`clients
      ensures Valid() && state == Next(server.maxEvents, old(state), Step.Load(id))
      ensures forall o :: o in parts && o !in old(parts) ==> fresh(o)
      ensures forall c :: c in server.clients && c !in old(server.clients) ==> fresh(c)
    {
      Disconnect(id);
      var dashboard := OpenDashboard();
      Reopened(server.maxEvents, old(state), id);
      assert Shows(Page(dashboard, null, 0), Peer(false, [], NewReplica(state.log)));
      hide Next, Shows, NewReplica;
      Replace(id, Page(dashboard, null, 0), Peer(false, [], NewReplica(state.log)));
    }

    /** One page and its peer change, together. */
    method Replace(id: nat, page: Page<E, I>, ghost peer: Peer<E>)
      requires state.log == server.events && AllApart(pages) && Owned(pages, parts) && Shows(page, peer)
      requires forall other :: other in pages && other != id ==>
                 other in state.peers && Shows(pages[other], state.peers[other]) && Apart(page, pages[other])
      requires forall other :: other in state.peers && other != id ==> other in pages
      modifies this`state, this`pages, this`parts
      ensures Valid() && state == System(old(state).log, old(state).peers[id := peer])
      ensures parts == old(parts) + PartsOf(page)
    {
      StillApart(pages, id, page, parts);
      hide Shows, AllApart, Owned, PartsOf;
      pages := pages[id := page];
      parts := parts + PartsOf(page);
      Become(System(state.log, state.peers[id := peer]));
    }

    /** The pages already are what the system becomes. */
    ghost method Become(after: System<E>)
      requires after.log == server.events && Owned(pages, parts) && AllApart(pages)
      requires forall id :: id in pages <==> id in after.peers
      requires forall id :: id in pages ==> Shows(pages[id], after.peers[id])
      modifies this`state
      ensures Valid() && state == after
    {
      hide Keeps, Carries, AllApart, Owned;
      state := after;
    }

    method OpenDashboard() returns (dashboard: Dashboard<E, I>)
      ensures fresh(dashboard) && Keeps(dashboard, NewReplica(server.events))
    {
      dashboard := new Dashboard(build);
      dashboard.LoadSnapshot(server.events);
      LoadIsFresh(server.events);
    }

    method Connect(id: nat)
      requires Valid()
      modifies this`state, this`pages, this`parts, server`clients
      ensures Valid() && state == Next(server.maxEvents, old(state), Step.Connect(id))
      ensures forall o :: o in parts && o !in old(parts) ==> fresh(o)
      ensures forall c :: c in server.clients && c !in old(server.clients) ==> fresh(c)
    {
      hide Keeps, TakeLast;
      if id in pages {
        Disconnect(id);
        var stream := server.Connect();
        assert Carries(stream.frames, 0, [Snapshot(server.events)]);
        Reopened(server.maxEvents, old(state), id);
        forall other | other in pages && other != id
          ensures Shows(pages[other], state.peers[other]) && Apart(pages[id].(stream := stream, read := 0), pages[other])
        {
          assert Apart(pages[id], pages[other]);
        }
        assert Shows(pages[id].(stream := stream, read := 0), Peer(true, [Snapshot(state.log)], state.peers[id].replica));
        assert pages[id].dashboard in parts && parts == old(parts);
        hide Next, Carries, Shows, Apart, AllApart, Owned;
        Replace(id, pages[id].(stream := stream, read := 0), Peer(true, [Snapshot(state.log)], state.peers[id].replica));
      }
    }

    /** The stream a page has open, if any, is closed. */
    method Disconnect(id: nat)
      requires Valid()
      modifies this`state, server`clients
      ensures Valid() && state == Next(server.maxEvents, old(state), Step.Disconnect(id))
      ensures server.clients <= old(server.clients)
    {
      hide Keeps, Carries, TakeLast;
      if id in pages && pages[id].stream != null {
        server.Close(pages[id].stream);
      }
      Become(Next(server.maxEvents, state, Step.Disconnect(id)));
    }

    /** The next frame of a page's stream arrives. */
    method Deliver(id: nat)
      requires Valid()
      modifies this`state, this`pages, this`parts, if id in pages then {pages[id].dashboard} else {}
      ensures Valid() && state == Next(server.maxEvents, old(state), Step.Deliver(id))
      ensures parts <= old(parts)
    {
      hide Keeps, TakeLast;
      if id in pages && pages[id].stream != null && pages[id].read < |pages[id].stream.frames| {
        var page := pages[id];
        var frame := page.stream.frames[page.read];
        ghost var peer := state.peers[id];
        assert Shows(page, peer) && peer.channel[0] == frame;
        assert Carries(page.stream.frames, page.read + 1, peer.channel[1..]);
        Dispatch(page.dashboard, frame, peer.replica);
        hide Carries;
        Replace(id, page.(read := page.read + 1), peer.(channel := peer.channel[1..], replica := Receive(peer.replica, frame)));
      }
    }

    /** The handler of the frame's kind. */
    method Dispatch(dashboard: Dashboard<E, I>, frame: Frame<E>, ghost replica: Replica<E>)
      requires Keeps(dashboard, replica) && (frame.Events? ==> |replica.events| <= CLIENT_CAP)
      modifies dashboard
      ensures Keeps(dashboard, Receive(replica, frame)) && |Receive(replica, frame).events| <= CLIENT_CAP
    {
      ReceiptIsFresh(dashboard.View(), frame);
      match frame {
        case Snapshot(events) => dashboard.OnSnapshot(events);
        case Events(batch) => dashboard.OnEvents(batch);
        case Clear => dashboard.OnClear();
      }
    }

    method Pause(id: nat)
      requires Valid()
      modifies this`state, if id in pages then {pages[id].dashboard} else {}
      ensures Valid() && state == Next(server.maxEvents, old(state), Step.Pause(id))
    {
      hide TakeLast;
      if id in pages {
        ToggleIsFresh(pages[id].dashboard.View());
        pages[id].dashboard.OnPauseButton();
      }
      Become(Next(server.maxEvents, state, Step.Pause(id)));
    }

    method Take(step: Step<E>)
      requires Valid()
      modifies this, server, server.clients, parts
      ensures Valid() && state == Next(server.maxEvents, old(state), step)
      ensures forall o :: o in parts && o !in old(parts) ==> fresh(o)
      ensures forall c :: c in server.clients && c !in old(server.clients) ==> fresh(c)
    {
      match step {
        case Post(batch) => var _ := Post(batch);
        case Delete => Delete();
        case Load(id) => Load(id);
        case Connect(id) => Connect(id);
        case Disconnect(id) => Disconnect(id);
        case Deliver(id) => Deliver(id);
        case Pause(id) => Pause(id);
      }
    }

    /** A rendering changes nothing the system sees, and always has the index of the events it shows. */
    method Render(id: nat) returns (index: I)
      requires Valid() && id in pages
      modifies pages[id].dashboard
      ensures Valid() && index == build(pages[id].dashboard.events)
    {
      hide TakeLast;
      index := pages[id].dashboard.GetProcessIdentityIndex();
    }
  }

  /** Whatever the steps, the handlers carry out the run of Replication. */
  method Perform<E, I>(maxEvents: nat, build: seq<E> -> I, steps: seq<Step<E>>) returns (site: Site<E, I>)
    ensures site.Valid() && site.state == Run(maxEvents, steps)
  {
    site := new Site(maxEvents, build);
    hide Run, Next;
    for i := 0 to |steps|
      invariant fresh(site) && fresh(site.server) && fresh(site.server.clients) && fresh(site.parts)
      invariant site.Valid() && site.server.maxEvents == maxEvents && site.state == Run(maxEvents, steps[..i])
    {
      site.Take(steps[i]);
      RunSnoc(maxEvents, steps[..i], steps[i]);
      assert steps[..i + 1] == steps[..i] + [steps[i]];
    }
    assert steps[..|steps|] == steps;
  }

  /** Closing a stream first makes no difference to opening a page or a stream. */
  lemma Reopened<E>(maxEvents: nat, s: System<E>, id: nat)
    ensures var closed := Next(maxEvents, s, Step.Disconnect(id));
            && closed.log == s.log && (id in s.peers ==> id in closed.peers)
            && Next(maxEvents, s, Step.Load(id)) == System(closed.log, closed.peers[id := Peer(false, [], NewReplica(closed.log))])
            && (id in s.peers ==>
                  Next(maxEvents, s, Step.Connect(id))
                  == System(closed.log, closed.peers[id := Peer(true, [Snapshot(closed.log)], closed.peers[id].replica)]))
  {
  }

  lemma LoadIsFresh<E>(events: seq<E>)
    ensures var v := Act(StartView(), Fetch(events)); Fresh(v) && v.replica == NewReplica(events)
  {
  }

  lemma ReceiptIsFresh<E>(v: View<E>, frame: Frame<E>)
    requires Fresh(v) && (frame.Events? ==> |v.replica.events| <= CLIENT_CAP)
    ensures Fresh(Act(v, Receipt(frame))) && |Act(v, Receipt(frame)).replica.events| <= CLIENT_CAP
  {
  }

  lemma ToggleIsFresh<E>(v: View<E>)
    requires Fresh(v)
    ensures Fresh(Act(v, Toggle))
    ensures |v.replica.events| <= CLIENT_CAP ==> |Act(v, Toggle).replica.events| <= CLIENT_CAP
  {
  }
}
