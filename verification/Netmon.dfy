/**
  The monitor's event loop: DNS records feed the cache, CONNECT records are printed with the names the
  cache holds for their destination, and the cache is pruned on every CONNECT and every 30 seconds.
 */
module Netmon {
  import opened Basics
  import opened CacheSpec
  import opened CacheNames
  import opened Cache
  import Dns
  import Packet

  const MAINTENANCE_NS: nat := 30_000_000_000

  datatype Connection = Connection(
    timestampNS: uint64, pid: uint32, tid: uint32, uid: uint32, family: uint16, protocol: uint8,
    port: uint16, destination: seq<uint8>, comm: seq<uint8>)

  /** A ring-buffer sample by its kind word; None where the rest does not decode. */
  datatype Sample =
    | TooShort
    | DnsSample(dns: Option<Packet.DnsEvent>)
    | ConnectSample(connect: Option<Connection>)
    | OtherKind

  /** What the monitor is started with; unpack stands for the DNS library's decoder. */
  datatype Config = Config(containerID: uint64, noDNS: bool, unpack: seq<uint8> -> Option<Dns.Msg>)

  datatype Line = Line(connection: Connection, hostnames: seq<string>)

  /** One turn of the loop: the sample read, if any, and the clock after handling it. */
  datatype Input = Input(sample: Sample, now: uint64)

  // ----- one event, on values -----

  function QrSet(message: seq<uint8>): bool {
    |message| >= 3 && message[2] / 128 == 1
  }

  /** The arithmetic form of the response bit is the mask of the source. */
  lemma QrBit(b: bv8)
    ensures b & 0x80 != 0 <==> b as int / 128 == 1
  {
  }

  /** The message handed on to the DNS parser, if the record is one to hand on. */
  function MessageOf(cfg: Config, sample: Sample): Option<seq<uint8>> {
    if !sample.DnsSample? || cfg.noDNS || sample.dns.None? then None
    else
      var e := sample.dns.value;
      if e.capturedLen > |e.payload| || e.capturedLen != e.messageLen then None
      else
        var message := e.payload[..e.capturedLen];
        if QrSet(message) then Some(message) else None
  }

  /** The answer section an event contributes, with its timestamp. */
  function AnswerOf(cfg: Config, sample: Sample): (answer: Option<seq<Dns.RR>>)
    ensures answer.Some? ==> sample.DnsSample? && sample.dns.Some?
  {
    var message := MessageOf(cfg, sample);
    if message.None? || |message.value| < Dns.DNS_HEADER then None
    else
      var unpacked := cfg.unpack(message.value);
      if unpacked.None? || !unpacked.value.response then None else Some(unpacked.value.answer)
  }

  predicate IsPrinted(sample: Sample) {
    sample.ConnectSample? && sample.connect.Some? && AddrSize(sample.connect.value.family) != 0
  }

  /** The cache operations an event stands for. */
  function OpsOf(cfg: Config, sample: Sample): seq<Op> {
    if AnswerOf(cfg, sample).Some? then
      Dns.ResponsePuts(cfg.containerID, AnswerOf(cfg, sample).value, sample.dns.value.timestampNS)
    else if IsPrinted(sample) then [Op.Prune(sample.connect.value.timestampNS)]
    else []
  }

  function ValuesOf(names: seq<Name>): seq<string> {
    seq(|names|, i requires 0 <= i < |names| => names[i].value)
  }

  function HostnamesFor(cfg: Config, rs: seq<Record>, c: Connection): seq<string> {
    var key := KeyFor(cfg.containerID, c.family, c.destination);
    if key.None? then [] else ValuesOf(NamesBefore(rs, key.value))
  }

  /** The line printed for an event when the cache holds rs after its operations. */
  function LinesOf(cfg: Config, rs: seq<Record>, sample: Sample): seq<Line> {
    if IsPrinted(sample) then [Line(sample.connect.value, HostnamesFor(cfg, rs, sample.connect.value))] else []
  }

  // ----- one event, as it runs -----

  class App {
    const cache: Cache
    const cfg: Config

    constructor (capacity: nat, cfg: Config)
      ensures cache.Valid() && fresh(cache) && fresh(cache.Repr) && cache.records == []
      ensures this.cfg == cfg && cache.capacity == capacity
    {
      this.cfg := cfg;
      cache := new Cache(capacity);
    }

    method HandleEvent(sample: Sample) returns (lines: seq<Line>)
      requires cache.Valid()
      modifies cache.Repr
      ensures cache.Valid() && fresh(cache.Repr - old(cache.Repr))
      ensures cache.records == Apply(cache.capacity, old(cache.records), OpsOf(cfg, sample))
      ensures lines == LinesOf(cfg, cache.records, sample)
    {
      lines := [];
      ghost var rs := cache.records;
      assert Apply(cache.capacity, rs, []) == rs;
      hide Apply, cache.Valid, Dns.ResponsePuts;
      match sample
      case TooShort =>
      case OtherKind =>
      case DnsSample(dns) =>
        if cfg.noDNS || dns.None? {
          return;
        }
        var event := dns.value;
        if event.capturedLen > |event.payload| || event.capturedLen != event.messageLen {
          return;
        }
        var message := event.payload[..event.capturedLen];
        if !QrSet(message) {
          return;
        }
        var _ := Dns.ParseResponse(cache, cfg.containerID, message, cfg.unpack(message), event.timestampNS);
      case ConnectSample(connect) =>
        if connect.None? {
          return;
        }
        lines := PrintConnection(connect.value);
    }

    method PrintConnection(event: Connection) returns (lines: seq<Line>)
      requires cache.Valid()
      modifies cache.Repr
      ensures cache.Valid() && fresh(cache.Repr - old(cache.Repr))
      ensures var sample := ConnectSample(Some(event));
              && cache.records == Apply(cache.capacity, old(cache.records), OpsOf(cfg, sample))
              && lines == LinesOf(cfg, cache.records, sample)
    {
      ghost var rs := cache.records;
      assert Apply(cache.capacity, rs, []) == rs;
      if event.family != 2 && event.family != 10 {
        return [];
      }
      ApplySnoc(cache.capacity, rs, [], Op.Prune(event.timestampNS));
      assert [] + [Op.Prune(event.timestampNS)] == [Op.Prune(event.timestampNS)];
      cache.Prune(event.timestampNS);
      hide Apply, Step;
      var hostnames := CollectHostnames(event);
      lines := [Line(event, hostnames)];
    }

    method CollectHostnames(event: Connection) returns (hostnames: seq<string>)
      requires cache.Valid() && AddrSize(event.family) != 0
      ensures hostnames == HostnamesFor(cfg, cache.records, event)
    {
      var slot := cache.Find(cfg.containerID, event.family, event.destination);
      hostnames := [];
      if slot.Some? {
        var names := cache.entries[slot.value].names;
        ghost var held := NamesOf(names);
        for i := 0 to names.len
          invariant hostnames == ValuesOf(held[..i])
        {
          hostnames := hostnames + [names.data[i].value];
          assert held[i] == names.data[i];
        }
        assert held[..names.len] == held;
        assert cache.records[slot.value].names == held;
      }
    }

    /** One turn of the event loop: handle the sample, then prune if 30 seconds have gone by. */
    method Turn(input: Input, lastMaintenance: uint64, ghost run: Run) returns (lines: seq<Line>, maintained: uint64)
      requires cache.Valid() && cache.records == Apply(cache.capacity, [], run.log) && lastMaintenance == run.lastMaintenance
      modifies cache.Repr
      ensures cache.Valid() && fresh(cache.Repr - old(cache.Repr))
      ensures var run' := MaintainedRun(HandledRun(cfg, cache.capacity, run, input.sample), input.now);
              && cache.records == Apply(cache.capacity, [], run'.log)
              && run'.lines == run.lines + lines && run'.lastMaintenance == maintained
    {
      hide Apply, Step, cache.Valid, OpsOf, LinesOf;
      ApplyConcat(cache.capacity, [], run.log, OpsOf(cfg, input.sample));
      lines := HandleEvent(input.sample);
      maintained := lastMaintenance;
      if (input.now - lastMaintenance) % TWO_TO_THE_64 >= MAINTENANCE_NS {
        ApplySnoc(cache.capacity, [], run.log + OpsOf(cfg, input.sample), Op.Prune(input.now));
        cache.Prune(input.now);
        maintained := input.now;
      }
    }

    /** The event loop over a finite stretch of input, starting at the given clock reading. */
    method Poll(inputs: seq<Input>, start: uint64) returns (lines: seq<Line>)
      requires cache.Valid() && cache.records == []
      modifies cache.Repr
      ensures cache.Valid() && fresh(cache.Repr - old(cache.Repr))
      ensures var run := RunOf(cfg, cache.capacity, inputs, start);
              cache.records == Apply(cache.capacity, [], run.log) && lines == run.lines
    {
      lines := [];
      var lastMaintenance := start;
      ghost var run := RunOf(cfg, cache.capacity, inputs[..0], start);
      assert Apply(cache.capacity, [], []) == [] && run == Run([], start, []);
      hide Apply, cache.Valid, RunOf, MaintainedRun, HandledRun;
      for i := 0 to |inputs|
        invariant cache.Valid() && fresh(cache.Repr - old(cache.Repr))
        invariant run == RunOf(cfg, cache.capacity, inputs[..i], start)
        invariant lastMaintenance == run.lastMaintenance && lines == run.lines
        invariant cache.records == Apply(cache.capacity, [], run.log)
      {
        RunSnoc(cfg, cache.capacity, inputs, i, start);
        var printed;
        printed, lastMaintenance := Turn(inputs[i], lastMaintenance, run);
        lines := lines + printed;
        run := RunOf(cfg, cache.capacity, inputs[..i + 1], start);
      }
      assert inputs[..|inputs|] == inputs;
    }
  }

  // ----- whole runs, on values -----

  /** A run so far: every cache operation made, the last maintenance time, every line printed. */
  datatype Run = Run(log: seq<Op>, lastMaintenance: uint64, lines: seq<Line>)

  function HandledRun(cfg: Config, capacity: nat, run: Run, sample: Sample): Run {
    var log := run.log + OpsOf(cfg, sample);
    Run(log, run.lastMaintenance, run.lines + LinesOf(cfg, Apply(capacity, [], log), sample))
  }

  function MaintainedRun(run: Run, now: uint64): Run {
    if (now - run.lastMaintenance) % TWO_TO_THE_64 >= MAINTENANCE_NS then
      run.(log := run.log + [Op.Prune(now)], lastMaintenance := now)
    else run
  }

  function RunOf(cfg: Config, capacity: nat, inputs: seq<Input>, start: uint64): Run {
    if inputs == [] then Run([], start, [])
    else
      var last := inputs[|inputs| - 1];
      MaintainedRun(HandledRun(cfg, capacity, RunOf(cfg, capacity, inputs[..|inputs| - 1], start), last.sample), last.now)
  }

  lemma RunSnoc(cfg: Config, capacity: nat, inputs: seq<Input>, i: nat, start: uint64)
    requires i < |inputs|
    ensures RunOf(cfg, capacity, inputs[..i + 1], start)
            == MaintainedRun(HandledRun(cfg, capacity, RunOf(cfg, capacity, inputs[..i], start), inputs[i].sample), inputs[i].now)
  {
    assert inputs[..i + 1][..i] == inputs[..i];
  }

  /** Every Put of a run comes from the answer section of one of its DNS responses. */
  lemma {:induction false} PutComesFromResponse(cfg: Config, capacity: nat, inputs: seq<Input>, start: uint64, op: Op)
    returns (k: nat)
    requires op in RunOf(cfg, capacity, inputs, start).log && op.Put?
    ensures k < |inputs| && AnswerOf(cfg, inputs[k].sample).Some?
    ensures op in Dns.ResponsePuts(cfg.containerID, AnswerOf(cfg, inputs[k].sample).value, inputs[k].sample.dns.value.timestampNS)
  {
    hide LinesOf, AnswerOf, Dns.ResponsePuts;
    k := |inputs| - 1;
    var init := RunOf(cfg, capacity, inputs[..k], start);
    if op in init.log {
      k := PutComesFromResponse(cfg, capacity, inputs[..k], start, op);
    }
  }

  lemma {:induction false} LineIsPrintedAt(cfg: Config, capacity: nat, inputs: seq<Input>, start: uint64, line: Line)
    returns (n: nat)
    requires line in RunOf(cfg, capacity, inputs, start).lines
    ensures n < |inputs| && inputs[n].sample == ConnectSample(Some(line.connection)) && AddrSize(line.connection.family) != 0
    ensures var log := RunOf(cfg, capacity, inputs[..n], start).log;
            line.hostnames == HostnamesFor(cfg, Apply(capacity, [], log + [Op.Prune(line.connection.timestampNS)]), line.connection)
  {
    hide HostnamesFor, Apply;
    n := |inputs| - 1;
    if line in RunOf(cfg, capacity, inputs[..n], start).lines {
      var m := n;
      n := LineIsPrintedAt(cfg, capacity, inputs[..m], start, line);
      assert inputs[..m][..n] == inputs[..n];
    }
  }

  /**
    Sound attribution over whole runs, with no assumption about clocks, capacity or record order: each
    hostname printed for a CONNECT was attributed to exactly that container, family and address by an
    earlier DNS response of the run, and the latest expiry it was given lies after the CONNECT.
   */
  lemma HostnamesAreSound(cfg: Config, capacity: nat, inputs: seq<Input>, start: uint64, line: Line, hostname: string)
    returns (n: nat, k: nat, e: uint64, rr: Dns.RR)
    requires line in RunOf(cfg, capacity, inputs, start).lines && hostname in line.hostnames
    ensures k < n < |inputs| && inputs[n].sample == ConnectSample(Some(line.connection))
    ensures e > line.connection.timestampNS
    ensures KeyFor(cfg.containerID, line.connection.family, line.connection.destination).Some?
    ensures var key := KeyFor(cfg.containerID, line.connection.family, line.connection.destination).value;
            && LastExpiry(RunOf(cfg, capacity, inputs[..n], start).log, key, Fold(hostname)) == Some(e)
            && AnswerOf(cfg, inputs[k].sample).Some?
            && Dns.Attributed(cfg.containerID, AnswerOf(cfg, inputs[k].sample).value,
                              inputs[k].sample.dns.value.timestampNS, key, Fold(hostname), e)
            && rr in AnswerOf(cfg, inputs[k].sample).value
    ensures var c := line.connection;
            || (c.family == 2 && rr.A? && 4 <= |rr.address| && 4 <= |c.destination| && rr.address[..4] == c.destination[..4])
            || (c.family == 10 && rr.AAAA? && 16 <= |rr.address| && 16 <= |c.destination| && rr.address[..16] == c.destination[..16])
  {
    hide RunOf, AnswerOf, Dns.Attributed, Dns.ResponsePuts, Apply, LastExpiry, Holds, PutsName, Admit;
    n := LineIsPrintedAt(cfg, capacity, inputs, start, line);
    var log, ts := RunOf(cfg, capacity, inputs[..n], start).log, line.connection.timestampNS;
    var key := KeyFor(cfg.containerID, line.connection.family, line.connection.destination).value;
    e := PrintedIsHeld(capacity, log, ts, key, hostname);
    HeldWasLastPut(capacity, log, key, Fold(hostname), e);
    var op := LastExpiryMember(log, key, Fold(hostname));
    PutsOnly(op, key, Fold(hostname));
    k := PutComesFromResponse(cfg, capacity, inputs[..n], start, op);
    assert inputs[..n][k] == inputs[k];
    Dns.PutIsAttribution(cfg.containerID, AnswerOf(cfg, inputs[k].sample).value, inputs[k].sample.dns.value.timestampNS,
                         op, key, Fold(hostname));
    rr := Dns.AttributedByRecord(cfg.containerID, AnswerOf(cfg, inputs[k].sample).value, inputs[k].sample.dns.value.timestampNS,
                                 key, Fold(hostname), e);
  }

  lemma PutsOnly(op: Op, key: Key, f: string)
    requires PutsName(op, key, f)
    ensures op.Put?
  {
  }

  lemma PrintedIsHeld(capacity: nat, log: seq<Op>, ts: uint64, key: Key, hostname: string) returns (e: uint64)
    requires hostname in ValuesOf(NamesBefore(Apply(capacity, [], log + [Op.Prune(ts)]), key))
    ensures e > ts && Holds(Apply(capacity, [], log), key, Fold(hostname), e)
  {
    var rs := Apply(capacity, [], log + [Op.Prune(ts)]);
    ApplySnoc(capacity, [], log, Op.Prune(ts));
    var names := NamesBefore(rs, key);
    var i :| 0 <= i < |names| && names[i].value == hostname;
    e := names[i].expires;
    assert rs[RecordIndex(rs, key)] in rs && names[i] in names;
    assert Holds(rs, key, Fold(hostname), e);
    PruneHolds(Apply(capacity, [], log), ts, key, Fold(hostname), e);
  }

  predicate Lists(hostnames: seq<string>, f: string) {
    exists i :: 0 <= i < |hostnames| && Fold(hostnames[i]) == f
  }

  /** The name's last put on the key expires after ts. */
  predicate IsLive(log: seq<Op>, key: Key, f: string, ts: uint64) {
    LastExpiry(log, key, f).Some? && LastExpiry(log, key, f).value > ts
  }

  /**
    Exact attribution over whole runs: if the cache's caps were not exceeded and it was never pruned later
    than the CONNECT, the line lists exactly the names whose last put on the address expires after it.
   */
  lemma HostnamesAreExact(cfg: Config, capacity: nat, inputs: seq<Input>, start: uint64, line: Line, key: Key)
    returns (n: nat)
    requires line in RunOf(cfg, capacity, inputs, start).lines
    requires KeyFor(cfg.containerID, line.connection.family, line.connection.destination) == Some(key)
    ensures n < |inputs| && inputs[n].sample == ConnectSample(Some(line.connection))
    ensures var log, ts := RunOf(cfg, capacity, inputs[..n], start).log, line.connection.timestampNS;
            WithinCaps(capacity, log) && PrunesBy(log, ts) ==>
              forall f :: Lists(line.hostnames, f) <==> IsLive(log, key, f, ts)
  {
    hide RunOf, WithinCaps, PrunesBy, KeyFor, Lists, IsLive;
    n := LineIsPrintedAt(cfg, capacity, inputs, start, line);
    var log, ts := RunOf(cfg, capacity, inputs[..n], start).log, line.connection.timestampNS;
    if WithinCaps(capacity, log) && PrunesBy(log, ts) {
      forall f ensures Lists(line.hostnames, f) <==> IsLive(log, key, f, ts) {
        ListedIffLive(capacity, log, ts, key, f);
      }
    }
  }

  lemma ListedIffLive(capacity: nat, log: seq<Op>, ts: uint64, key: Key, f: string)
    requires WithinCaps(capacity, log) && PrunesBy(log, ts)
    ensures Lists(ValuesOf(NamesBefore(Apply(capacity, [], log + [Op.Prune(ts)]), key)), f) <==> IsLive(log, key, f, ts)
  {
    var rs := Apply(capacity, [], log + [Op.Prune(ts)]);
    var names := NamesBefore(rs, key);
    hide WithinCaps, PrunesBy, Apply, LastExpiry, NamesBefore, Fold;
    if IsLive(log, key, f, ts) {
      CacheRefinesLog(capacity, log, ts, key, f, LastExpiry(log, key, f).value);
      RunWf(capacity, log + [Op.Prune(ts)]);
      HeldName(rs, key, f, LastExpiry(log, key, f).value);
      var name :| name in names && Fold(name.value) == f;
      var i :| 0 <= i < |names| && names[i] == name;
      assert Fold(ValuesOf(names)[i]) == f;
    }
    if Lists(ValuesOf(names), f) {
      var i :| 0 <= i < |names| && Fold(names[i].value) == f;
      NamesAreHeld(rs, key, names[i]);
      CacheRefinesLog(capacity, log, ts, key, f, names[i].expires);
    }
  }

  // ----- what every record does to a run -----

  /** An undropped DNS record with a whole message that unpacks to a response with this answer section. */
  predicate IsResponse(cfg: Config, sample: Sample, stamp: uint64, answer: seq<Dns.RR>) {
    && sample.DnsSample? && sample.dns.Some? && !cfg.noDNS
    && var e := sample.dns.value;
       && e.timestampNS == stamp && 12 <= e.capturedLen == e.messageLen <= |e.payload| && e.payload[2] >= 128
       && cfg.unpack(e.payload[..e.capturedLen]) == Some(Dns.Msg(true, answer))
  }

  /** A connection record with an address family the monitor knows. */
  predicate IsConnect(sample: Sample, c: Connection) {
    sample == ConnectSample(Some(c)) && (c.family == 2 || c.family == 10)
  }

  /** The maintenance prune at the end of a turn, if 30 seconds have gone by on the wrapping clock. */
  function Upkeep(last: uint64, now: uint64): seq<Op> {
    if (now - last) % 0x1_0000_0000_0000_0000 >= 30_000_000_000 then [Op.Prune(now)] else []
  }

  lemma AnswerIsResponse(cfg: Config, sample: Sample)
    ensures AnswerOf(cfg, sample).Some? ==>
              IsResponse(cfg, sample, sample.dns.value.timestampNS, AnswerOf(cfg, sample).value)
    ensures forall stamp, answer :: IsResponse(cfg, sample, stamp, answer) ==>
              AnswerOf(cfg, sample) == Some(answer) && stamp == sample.dns.value.timestampNS
  {
    var message := MessageOf(cfg, sample);
    if message.Some? && cfg.unpack(message.value).Some? {
      var msg := cfg.unpack(message.value).value;
      assert msg == Dns.Msg(msg.response, msg.answer);
    }
  }

  lemma ResponseOps(cfg: Config, sample: Sample, stamp: uint64, answer: seq<Dns.RR>)
    requires IsResponse(cfg, sample, stamp, answer)
    ensures OpsOf(cfg, sample) == Dns.ResponsePuts(cfg.containerID, answer, stamp) && !IsPrinted(sample)
  {
    hide AnswerOf, Dns.ResponsePuts;
    AnswerIsResponse(cfg, sample);
  }

  lemma OtherOps(cfg: Config, sample: Sample)
    requires (forall stamp, answer :: !IsResponse(cfg, sample, stamp, answer)) && (forall c :: !IsConnect(sample, c))
    ensures OpsOf(cfg, sample) == [] && !IsPrinted(sample)
  {
    hide AnswerOf, Dns.ResponsePuts;
    AnswerIsResponse(cfg, sample);
    assert IsPrinted(sample) ==> IsConnect(sample, sample.connect.value);
  }

  /** One more turn of a run. */
  lemma TurnIs(cfg: Config, capacity: nat, inputs: seq<Input>, start: uint64, k: nat)
    requires k < |inputs|
    ensures var before, after := RunOf(cfg, capacity, inputs[..k], start), RunOf(cfg, capacity, inputs[..k + 1], start);
            var upkeep, handled := Upkeep(before.lastMaintenance, inputs[k].now), before.log + OpsOf(cfg, inputs[k].sample);
            && after.log == handled + upkeep
            && after.lines == before.lines + LinesOf(cfg, Apply(capacity, [], handled), inputs[k].sample)
            && after.lastMaintenance == if upkeep == [] then before.lastMaintenance else inputs[k].now
  {
    hide RunOf, Apply, OpsOf, LinesOf, MaintainedRun, Upkeep;
    RunSnoc(cfg, capacity, inputs, k, start);
    MaintainedIs(HandledRun(cfg, capacity, RunOf(cfg, capacity, inputs[..k], start), inputs[k].sample), inputs[k].now);
  }

  lemma MaintainedIs(run: Run, now: uint64)
    ensures var upkeep := Upkeep(run.lastMaintenance, now);
            MaintainedRun(run, now)
            == run.(log := run.log + upkeep, lastMaintenance := if upkeep == [] then run.lastMaintenance else now)
  {
  }

  /** Every response is applied: the log goes on with exactly its puts, in order, and nothing is printed. */
  lemma ResponseIsApplied(cfg: Config, capacity: nat, inputs: seq<Input>, start: uint64, k: nat, stamp: uint64, answer: seq<Dns.RR>)
    requires k < |inputs| && IsResponse(cfg, inputs[k].sample, stamp, answer)
    ensures var before, after := RunOf(cfg, capacity, inputs[..k], start), RunOf(cfg, capacity, inputs[..k + 1], start);
            && after.log == before.log + Dns.ResponsePuts(cfg.containerID, answer, stamp) + Upkeep(before.lastMaintenance, inputs[k].now)
            && after.lines == before.lines
  {
    hide RunOf, Dns.ResponsePuts, OpsOf, Apply, HostnamesFor, IsResponse;
    TurnIs(cfg, capacity, inputs, start, k);
    ResponseOps(cfg, inputs[k].sample, stamp, answer);
  }

  /** Every connection is printed: one line, after the log has been pruned at the connection's time. */
  lemma ConnectIsPrinted(cfg: Config, capacity: nat, inputs: seq<Input>, start: uint64, k: nat, c: Connection)
    requires k < |inputs| && IsConnect(inputs[k].sample, c)
    ensures var before, after := RunOf(cfg, capacity, inputs[..k], start), RunOf(cfg, capacity, inputs[..k + 1], start);
            && after.log == before.log + [Op.Prune(c.timestampNS)] + Upkeep(before.lastMaintenance, inputs[k].now)
            && |after.lines| == |before.lines| + 1 && before.lines <= after.lines
            && after.lines[|before.lines|].connection == c
  {
    hide RunOf, Apply, HostnamesFor, AnswerOf;
    TurnIs(cfg, capacity, inputs, start, k);
  }

  /** Nothing else does anything but for the upkeep, whose time is what the clock shows. */
  lemma OtherRecordsDoNothing(cfg: Config, capacity: nat, inputs: seq<Input>, start: uint64, k: nat)
    requires k < |inputs|
    ensures var before, after := RunOf(cfg, capacity, inputs[..k], start), RunOf(cfg, capacity, inputs[..k + 1], start);
            var upkeep := Upkeep(before.lastMaintenance, inputs[k].now);
            && after.lastMaintenance == (if upkeep == [] then before.lastMaintenance else inputs[k].now)
            && ((forall stamp, answer :: !IsResponse(cfg, inputs[k].sample, stamp, answer))
                && (forall c :: !IsConnect(inputs[k].sample, c)) ==>
                  after.log == before.log + upkeep && after.lines == before.lines)
  {
    hide RunOf, Apply, HostnamesFor, OpsOf, IsResponse, IsConnect;
    TurnIs(cfg, capacity, inputs, start, k);
    if (forall stamp, answer :: !IsResponse(cfg, inputs[k].sample, stamp, answer)) && (forall c :: !IsConnect(inputs[k].sample, c)) {
      OtherOps(cfg, inputs[k].sample);
    }
  }

  // ----- from response to line -----

  lemma {:induction false} LastExpiryConcat(a: seq<Op>, b: seq<Op>, key: Key, f: string)
    ensures LastExpiry(a + b, key, f) == if LastExpiry(b, key, f).Some? then LastExpiry(b, key, f) else LastExpiry(a, key, f)
  {
    if b == [] {
      assert a + b == a;
    } else {
      assert (a + b)[..|a + b| - 1] == a + b[..|b| - 1];
      LastExpiryConcat(a, b[..|b| - 1], key, f);
    }
  }

  /** The response gives the name to the key, and until e however often it names it. */
  ghost predicate Gives(cfg: Config, answer: seq<Dns.RR>, stamp: uint64, key: Key, f: string, e: uint64) {
    && Dns.Attributed(cfg.containerID, answer, stamp, key, f, e)
    && forall other :: Dns.Attributed(cfg.containerID, answer, stamp, key, f, other) ==> other == e
  }

  /** No response of these inputs from the m-th on gives the name to the key. */
  ghost predicate NotGivenFrom(cfg: Config, inputs: seq<Input>, m: nat, key: Key, f: string) {
    forall i, stamp, answer, e :: m <= i < |inputs| && IsResponse(cfg, inputs[i].sample, stamp, answer) ==>
      !Dns.Attributed(cfg.containerID, answer, stamp, key, f, e)
  }

  lemma GivenIsLastExpiry(cfg: Config, answer: seq<Dns.RR>, stamp: uint64, key: Key, f: string, e: uint64)
    requires Dns.AdmissibleCount(answer) <= 32 && Gives(cfg, answer, stamp, key, f, e)
    ensures LastExpiry(Dns.ResponsePuts(cfg.containerID, answer, stamp), key, f) == Some(e)
  {
    hide Dns.Attributed, Dns.ResponsePuts, PutsName, Admit, LastExpiry;
    var puts := Dns.ResponsePuts(cfg.containerID, answer, stamp);
    var op := Dns.AttributionIsPut(cfg.containerID, answer, stamp, key, f, e);
    FoldsPutMembers(puts, key, f);
    var last := LastExpiryMember(puts, key, f);
    Dns.PutIsAttribution(cfg.containerID, answer, stamp, last, key, f);
  }

  lemma NotGivenIsNotPut(cfg: Config, answer: seq<Dns.RR>, stamp: uint64, key: Key, f: string)
    requires forall e :: !Dns.Attributed(cfg.containerID, answer, stamp, key, f, e)
    ensures LastExpiry(Dns.ResponsePuts(cfg.containerID, answer, stamp), key, f) == None
  {
    hide Dns.Attributed, Dns.ResponsePuts, PutsName, Admit, LastExpiry;
    var puts := Dns.ResponsePuts(cfg.containerID, answer, stamp);
    if LastExpiry(puts, key, f).Some? {
      var last := LastExpiryMember(puts, key, f);
      Dns.PutIsAttribution(cfg.containerID, answer, stamp, last, key, f);
    }
  }

  lemma PrunesGiveNothing(ops: seq<Op>, key: Key, f: string)
    requires |ops| <= 1 && forall op :: op in ops ==> op.Prune?
    ensures LastExpiry(ops, key, f) == None
  {
    if ops != [] {
      assert ops[0] in ops && ops[..|ops| - 1] == [];
    }
  }

  /** A turn that gives the key no such name leaves its last expiry as it was. */
  lemma TurnKeepsExpiry(cfg: Config, capacity: nat, inputs: seq<Input>, start: uint64, k: nat, key: Key, f: string)
    requires k < |inputs| && NotGivenFrom(cfg, inputs[..k + 1], k, key, f)
    ensures LastExpiry(RunOf(cfg, capacity, inputs[..k + 1], start).log, key, f)
            == LastExpiry(RunOf(cfg, capacity, inputs[..k], start).log, key, f)
  {
    var before, s := RunOf(cfg, capacity, inputs[..k], start), inputs[k].sample;
    assert inputs[..k + 1][k] == inputs[k];
    var upkeep, ops := Upkeep(before.lastMaintenance, inputs[k].now), OpsOf(cfg, s);
    assert LastExpiry(ops, key, f) == None by {
      hide RunOf, Dns.ResponsePuts, IsResponse, Dns.Attributed, LastExpiry;
      if stamp, answer :| IsResponse(cfg, s, stamp, answer) {
        ResponseOps(cfg, s, stamp, answer);
        NotGivenIsNotPut(cfg, answer, stamp, key, f);
      } else if c :| IsConnect(s, c) {
        PrunesGiveNothing([Op.Prune(c.timestampNS)], key, f);
      } else {
        OtherOps(cfg, s);
        PrunesGiveNothing([], key, f);
      }
    }
    hide RunOf, OpsOf, Upkeep, LinesOf, LastExpiry;
    TurnIs(cfg, capacity, inputs, start, k);
    UpkeepIsPrune(before.lastMaintenance, inputs[k].now);
    PrunesGiveNothing(upkeep, key, f);
    LastExpiryConcat(before.log + ops, upkeep, key, f);
    LastExpiryConcat(before.log, ops, key, f);
  }

  lemma UpkeepIsPrune(last: uint64, now: uint64)
    ensures |Upkeep(last, now)| <= 1 && forall op :: op in Upkeep(last, now) ==> op.Prune?
  {
  }

  lemma {:induction false} RestKeepsExpiry(cfg: Config, capacity: nat, inputs: seq<Input>, start: uint64, k: nat, n: nat, key: Key, f: string)
    requires k <= n <= |inputs| && NotGivenFrom(cfg, inputs[..n], k, key, f)
    ensures LastExpiry(RunOf(cfg, capacity, inputs[..n], start).log, key, f)
            == LastExpiry(RunOf(cfg, capacity, inputs[..k], start).log, key, f)
  {
    hide RunOf, LastExpiry, IsResponse, Dns.Attributed;
    if k < n {
      assert forall i :: 0 <= i < n - 1 ==> inputs[..n - 1][i] == inputs[..n][i];
      RestKeepsExpiry(cfg, capacity, inputs, start, k, n - 1, key, f);
      assert NotGivenFrom(cfg, inputs[..n], n - 1, key, f);
      TurnKeepsExpiry(cfg, capacity, inputs, start, n - 1, key, f);
    }
  }

  lemma ResponseSetsExpiry(cfg: Config, capacity: nat, inputs: seq<Input>, start: uint64, k: nat, stamp: uint64,
                           answer: seq<Dns.RR>, key: Key, f: string, e: uint64)
    requires k < |inputs| && IsResponse(cfg, inputs[k].sample, stamp, answer)
    requires Dns.AdmissibleCount(answer) <= 32 && Gives(cfg, answer, stamp, key, f, e)
    ensures LastExpiry(RunOf(cfg, capacity, inputs[..k + 1], start).log, key, f) == Some(e)
  {
    hide RunOf, LastExpiry, IsResponse, Gives, Dns.ResponsePuts, Upkeep;
    var before := RunOf(cfg, capacity, inputs[..k], start);
    var upkeep, puts := Upkeep(before.lastMaintenance, inputs[k].now), Dns.ResponsePuts(cfg.containerID, answer, stamp);
    ResponseIsApplied(cfg, capacity, inputs, start, k, stamp, answer);
    GivenIsLastExpiry(cfg, answer, stamp, key, f, e);
    UpkeepIsPrune(before.lastMaintenance, inputs[k].now);
    PrunesGiveNothing(upkeep, key, f);
    LastExpiryConcat(before.log + puts, upkeep, key, f);
    LastExpiryConcat(before.log, puts, key, f);
  }

  /**
    Complete attribution, end to end: within the caps, a name that a response gave an address, that no later
    response gave it again, and that expires after a connection to it and after every prune so far, is
    listed on that connection's line.
   */
  lemma GivenNameIsListed(cfg: Config, capacity: nat, inputs: seq<Input>, start: uint64, k: nat, n: nat, stamp: uint64,
                          answer: seq<Dns.RR>, c: Connection, key: Key, f: string, e: uint64)
    returns (line: Line)
    requires k < n < |inputs| && IsResponse(cfg, inputs[k].sample, stamp, answer) && IsConnect(inputs[n].sample, c)
    requires KeyFor(cfg.containerID, c.family, c.destination) == Some(key)
    requires Dns.AdmissibleCount(answer) <= 32 && Gives(cfg, answer, stamp, key, f, e)
    requires NotGivenFrom(cfg, inputs[..n], k + 1, key, f) && e > c.timestampNS
    requires var log := RunOf(cfg, capacity, inputs[..n], start).log;
             WithinCaps(capacity, log) && forall op :: op in log && op.Prune? ==> op.now < e
    ensures line in RunOf(cfg, capacity, inputs, start).lines
    ensures line.connection == c && Lists(line.hostnames, f)
  {
    hide RunOf, WithinCaps, IsResponse, Gives, LastExpiry, KeyFor, NotGivenFrom, Apply, Holds, Dns.AdmissibleCount;
    var log := RunOf(cfg, capacity, inputs[..n], start).log;
    ResponseSetsExpiry(cfg, capacity, inputs, start, k, stamp, answer, key, f, e);
    RestKeepsExpiry(cfg, capacity, inputs, start, k + 1, n, key, f);
    forall i | 0 <= i < |log| && log[i].Prune? ensures log[i].now < e {
      assert log[i] in log;
    }
    LastPutIsHeld(capacity, log, key, f, e);
    line := HeldIsPrinted(cfg, capacity, inputs, start, n, c, key, f, e);
  }

  lemma HeldIsPrinted(cfg: Config, capacity: nat, inputs: seq<Input>, start: uint64, n: nat, c: Connection, key: Key, f: string, e: uint64)
    returns (line: Line)
    requires n < |inputs| && IsConnect(inputs[n].sample, c) && KeyFor(cfg.containerID, c.family, c.destination) == Some(key)
    requires Holds(Apply(capacity, [], RunOf(cfg, capacity, inputs[..n], start).log), key, f, e) && e > c.timestampNS
    ensures line in RunOf(cfg, capacity, inputs, start).lines && line.connection == c && Lists(line.hostnames, f)
  {
    hide RunOf, Lists, Apply, OpsOf, LinesOf, Holds, HostnamesFor, KeyFor, IsConnect;
    var log, lines := RunOf(cfg, capacity, inputs[..n], start).log, RunOf(cfg, capacity, inputs[..n], start).lines;
    line := Line(c, HostnamesFor(cfg, Apply(capacity, [], log + [Op.Prune(c.timestampNS)]), c));
    HeldIsListed(cfg, capacity, log, c, key, f, e);
    ConnectLine(cfg, capacity, log, inputs[n].sample, c);
    TurnLines(cfg, capacity, inputs, start, n);
    assert (lines + [line])[|lines|] == line;
    LinesStay(cfg, capacity, inputs, start, n + 1);
  }

  lemma TurnLines(cfg: Config, capacity: nat, inputs: seq<Input>, start: uint64, k: nat)
    requires k < |inputs|
    ensures var before := RunOf(cfg, capacity, inputs[..k], start);
            RunOf(cfg, capacity, inputs[..k + 1], start).lines
            == before.lines + LinesOf(cfg, Apply(capacity, [], before.log + OpsOf(cfg, inputs[k].sample)), inputs[k].sample)
  {
    TurnIs(cfg, capacity, inputs, start, k);
  }

  lemma ConnectLine(cfg: Config, capacity: nat, log: seq<Op>, sample: Sample, c: Connection)
    requires IsConnect(sample, c)
    ensures LinesOf(cfg, Apply(capacity, [], log + OpsOf(cfg, sample)), sample)
            == [Line(c, HostnamesFor(cfg, Apply(capacity, [], log + [Op.Prune(c.timestampNS)]), c))]
  {
    hide Apply, HostnamesFor;
  }

  lemma HeldIsListed(cfg: Config, capacity: nat, log: seq<Op>, c: Connection, key: Key, f: string, e: uint64)
    requires Holds(Apply(capacity, [], log), key, f, e) && e > c.timestampNS
    requires KeyFor(cfg.containerID, c.family, c.destination) == Some(key)
    ensures Lists(HostnamesFor(cfg, Apply(capacity, [], log + [Op.Prune(c.timestampNS)]), c), f)
  {
    var ts := c.timestampNS;
    var rs := Apply(capacity, [], log + [Op.Prune(ts)]);
    ApplySnoc(capacity, [], log, Op.Prune(ts));
    PruneHolds(Apply(capacity, [], log), ts, key, f, e);
    RunWf(capacity, log + [Op.Prune(ts)]);
    hide Apply, NamesBefore, Fold;
    HeldName(rs, key, f, e);
    var names := NamesBefore(rs, key);
    var name :| name in names && Fold(name.value) == f;
    var i :| 0 <= i < |names| && names[i] == name;
    assert ValuesOf(names)[i] == name.value;
  }

  lemma {:induction false} LinesStay(cfg: Config, capacity: nat, inputs: seq<Input>, start: uint64, n: nat)
    requires n <= |inputs|
    ensures RunOf(cfg, capacity, inputs[..n], start).lines <= RunOf(cfg, capacity, inputs, start).lines
    decreases |inputs| - n
  {
    hide RunOf, LinesOf, OpsOf, Upkeep;
    if n < |inputs| {
      TurnIs(cfg, capacity, inputs, start, n);
      LinesStay(cfg, capacity, inputs, start, n + 1);
    } else {
      assert inputs[..n] == inputs;
    }
  }

  // ----- from packet to message -----

  /**
    Capture is sound: whatever packet the probe reports, a message the monitor hands to the DNS parser
    is the whole payload of a UDP datagram on port 53 in that packet, 12 to 1232 bytes with QR set.
   */
  lemma MessageIsWholePayload(cfg: Config, skb: seq<uint8>, ifindex: uint32, now: uint64, direction: uint8,
                              stale: seq<uint8>, event: Packet.DnsEvent, message: seq<uint8>)
    returns (d: Packet.Datagram, trailer: seq<uint8>)
    requires |stale| == 1232
    requires event in Packet.EffectOf(Packet.Examine(skb), skb, ifindex, now, direction, Some(stale)).events
    requires MessageOf(cfg, DnsSample(Some(event))) == Some(message)
    ensures Packet.ValidDatagram(d) && skb == Packet.Encode(d) + trailer && message == d.payload
    ensures d.source == 53 || d.destination == 53
    ensures 12 <= |message| <= 1232 && message[2] >= 128
  {
    hide Packet.Examine, Packet.Encode, Packet.ValidDatagram;
    var missing;
    d, missing, trailer := Packet.LocatedIsDatagram(skb);
    assert skb + [] == skb;
  }

  /**
    Capture is complete: a datagram on port 53 whose payload is a DNS response of 12 to 1232 bytes is
    reported by the probe and handed to the DNS parser whole, whatever follows it in the packet.
   */
  lemma ResponsePayloadIsHandedOn(cfg: Config, d: Packet.Datagram, trailer: seq<uint8>, ifindex: uint32, now: uint64,
                                  direction: uint8, stale: seq<uint8>)
    requires Packet.ValidDatagram(d) && (d.source == 53 || d.destination == 53)
    requires 12 <= |d.payload| <= 1232 && d.payload[2] >= 128 && !cfg.noDNS && |stale| == 1232
    ensures var skb := Packet.Encode(d) + trailer;
            var events := Packet.EffectOf(Packet.Examine(skb), skb, ifindex, now, direction, Some(stale)).events;
            |events| == 1 && MessageOf(cfg, DnsSample(Some(events[0]))) == Some(d.payload)
  {
    hide Packet.Examine, Packet.Encode, Packet.ValidDatagram;
    Packet.DatagramIsLocated(d, trailer);
    Packet.DatagramIsCaptured(d, trailer, ifindex, now, direction, stale);
  }
}
