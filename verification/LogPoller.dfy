/** The poll loop (`pkg/logpoller/log_poller.go`): it moves a masterchain cursor forward, window by
    window, and stores one log for every matching filter of every event in the window.

    Runs are arbitrary: any head movement, any network failure, any completion order, and filters
    that come and go. The main result is a conservation law for every run. */
module LogPoller {
  import opened Prelude
  import opened Bits
  import opened Filters
  import opened TonChain
  import opened Loader

  datatype Log = Log(filterId: int, txHash: nat, lt: nat, address: Address, topic: Topic, data: Data)

  function LogFor(id: int, ev: Event, topic: Topic): Log {
    Log(id, ev.txHash, ev.lt, ev.src, topic, ev.body)
  }

  ghost predicate Decodable(events: seq<Event>) {
    forall i :: 0 <= i < |events| ==> TopicOf(events[i].dst).Some?
  }

  /* ---------- how often a log is due ---------- */

  /** How often an event asks for this log: once per matching filter with its identifier. */
  ghost function LogCount(fs: State, ev: Event, log: Log): nat {
    var topic := TopicOf(ev.dst);
    if topic.Some? && log == LogFor(log.filterId, ev, topic.value)
    then MatchCount(fs, ev.src, topic.value, log.filterId) else 0
  }

  ghost function LogCounts(fs: State, events: seq<Event>, log: Log): nat {
    if events == [] then 0 else LogCount(fs, events[0], log) + LogCounts(fs, events[1..], log)
  }

  lemma {:induction false} LogCountsSplit(fs: State, a: seq<Event>, b: seq<Event>, log: Log)
    ensures LogCounts(fs, a + b, log) == LogCounts(fs, a, log) + LogCounts(fs, b, log)
  {
    if a == [] {
      assert a + b == b;
    } else {
      assert (a + b)[1..] == a[1..] + b;
      LogCountsSplit(fs, a[1..], b, log);
    }
  }

  lemma {:induction false} LogCountsRemove(fs: State, events: seq<Event>, i: nat, log: Log)
    requires i < |events|
    ensures LogCounts(fs, events, log) ==
            LogCount(fs, events[i], log) + LogCounts(fs, events[..i] + events[i + 1..], log)
  {
    var a, b := events[..i], events[i + 1..];
    assert events == a + ([events[i]] + b);
    LogCountsSplit(fs, a, [events[i]] + b, log);
    assert ([events[i]] + b)[1..] == b;
    LogCountsSplit(fs, a, b, log);
  }

  /** Only the events of the log's own address count, and their order does not matter. */
  lemma {:induction false} LogCountsByMultiset(fs: State, a: seq<Event>, b: seq<Event>, log: Log)
    requires forall ev: Event :: ev.src == log.address ==> multiset(a)[ev] == multiset(b)[ev]
    requires forall ev :: ev in b ==> ev.src == log.address
    ensures LogCounts(fs, a, log) == LogCounts(fs, b, log)
    decreases |a|
  {
    if a == [] {
      assert forall ev: Event :: multiset(b)[ev] == 0;
      assert multiset(b) == multiset{};
      assert |b| == |multiset(b)|;
    } else {
      var ev, rest := a[0], a[1..];
      assert a == [ev] + rest;
      if ev.src != log.address {
        LogCountsByMultiset(fs, rest, b, log);
      } else {
        assert ev in multiset(b);
        var i :| 0 <= i < |b| && b[i] == ev;
        var b' := b[..i] + b[i + 1..];
        MultisetWithout(b, i);
        assert forall x :: x in b' ==> x in b;
        LogCountsByMultiset(fs, rest, b', log);
        LogCountsRemove(fs, b, i, log);
      }
    }
  }

  /** The events before the first whose topic cannot be decoded: processing stores no more. */
  function DecodablePart(events: seq<Event>): seq<Event> {
    if events == [] || TopicOf(events[0].dst).None? then [] else [events[0]] + DecodablePart(events[1..])
  }

  lemma {:induction false} DecodablePartIs(events: seq<Event>, i: nat)
    requires i <= |events| && Decodable(events[..i]) && (i < |events| ==> TopicOf(events[i].dst).None?)
    ensures DecodablePart(events) == events[..i]
  {
    if i == 0 {
    } else {
      assert events[..i][0] == events[0];
      assert events[1..][..i - 1] == events[..i][1..];
      DecodablePartIs(events[1..], i - 1);
      assert [events[0]] + events[..i][1..] == events[..i];
    }
  }

  /* ---------- the poll as a step ---------- */

  datatype Config = Config(confirmations: Uint32, pageSize: nat)

  /** Everything a poll depends on besides the state: whether the head is answered and where it is,
      whether the two blocks can be looked up, and how each account is served. */
  datatype PollEnv = PollEnv(
    headOk: bool, head: Uint32, lookupToOk: bool, lookupPrevOk: bool, fetch: Address -> FetchEnv)

  datatype St = St(cursor: nat, store: multiset<Log>, filters: State)

  /** The last block with enough confirmations, in 32-bit arithmetic. */
  function SafeSeq(cfg: Config, head: Uint32): Uint32 {
    (head - cfg.confirmations) % TWO_TO_32
  }

  /** The end of the window that this poll processes, if it processes one. A block after the head
      cannot be looked up, so a wrapped-around difference ends the poll. */
  function Target(cfg: Config, env: PollEnv, s: St): Option<nat> {
    var safe := SafeSeq(cfg, env.head);
    if !env.headOk || safe <= s.cursor || !env.lookupToOk || safe > env.head then None
    else if |s.filters.byAddress| == 0 || (s.cursor != 0 && !env.lookupPrevOk) then None
    else Some(safe)
  }

  /** The events that this poll fetches of account `a`. */
  ghost function Got(w: World, cfg: Config, env: PollEnv, s: St, to: nat, a: Address): seq<Event>
    requires ValidWorld(w) && s.cursor < to
  {
    Events(Fetched(w, a, s.cursor, to, cfg.pageSize, env.fetch(a)))
  }

  /** How often a completed poll stores the log. */
  ghost function Gain(w: World, cfg: Config, env: PollEnv, s: St, to: nat, log: Log): nat
    requires ValidWorld(w) && s.cursor < to
  {
    if log.address in s.filters.byAddress
    then LogCounts(s.filters, Got(w, cfg, env, s, to, log.address), log) else 0
  }

  ghost predicate AllDecodable(w: World, cfg: Config, env: PollEnv, s: St, to: nat)
    requires ValidWorld(w) && s.cursor < to
  {
    forall a :: a in s.filters.byAddress ==> Decodable(Got(w, cfg, env, s, to, a))
  }

  /** A batch as the collector returns it: for every watched account the fetched events, and no others,
      in any order. */
  ghost predicate IsBatch(w: World, cfg: Config, env: PollEnv, s: St, to: nat, events: seq<Event>)
    requires ValidWorld(w) && s.cursor < to
  {
    forall ev: Event :: multiset(events)[ev] ==
      if ev.src in s.filters.byAddress then multiset(Got(w, cfg, env, s, to, ev.src))[ev] else 0
  }

  /** The store after the events have been processed, up to the first that cannot be decoded. */
  ghost predicate Stored(fs: State, before: multiset<Log>, events: seq<Event>, after: multiset<Log>) {
    forall log :: after[log] == before[log] + LogCounts(fs, DecodablePart(events), log)
  }

  /** One poll, with the batch that it fetched: nothing, or the whole window is stored and the cursor
      moves, or, when some topic cannot be decoded, what comes before it is stored and the cursor stays. */
  ghost predicate PollStep(w: World, cfg: Config, env: PollEnv, batch: seq<Event>, s: St, s': St)
    requires ValidWorld(w)
  {
    match Target(cfg, env, s)
    case None => s' == s
    case Some(to) =>
      && IsBatch(w, cfg, env, s, to, batch)
      && Stored(s.filters, s.store, batch, s'.store)
      && s'.filters == s.filters
      && s'.cursor == if AllDecodable(w, cfg, env, s, to) then to else s.cursor
  }

  /* ---------- the code ---------- */

  class Service {
    var lastProcessedSeqNo: nat
    var logs: seq<Log>
    const filters: Registry
    const cfg: Config

    ghost function Now(): St
      reads this, filters
    {
      St(lastProcessedSeqNo, multiset(logs), filters.Now())
    }

    constructor (cfg: Config)
      ensures Now() == St(0, multiset{}, Filters.EMPTY) && this.cfg == cfg && fresh(filters)
    {
      this.cfg := cfg;
      filters := new Registry();
      lastProcessedSeqNo, logs := 0, [];
    }

    /** Stores one log per matching filter; fails, storing nothing, if the topic cannot be decoded. */
    method Process(ev: Event) returns (ok: bool)
      modifies this`logs
      ensures ok <==> TopicOf(ev.dst).Some?
      ensures forall log :: multiset(logs)[log] == multiset(old(logs))[log] + LogCount(filters.Now(), ev, log)
    {
      var topic := TopicOf(ev.dst);
      if topic.None? { return false; }
      var ids := filters.MatchingFilters(ev.src, topic.value);
      for i := 0 to |ids|
        invariant forall log :: multiset(logs)[log] == multiset(old(logs))[log] +
                    if log == LogFor(log.filterId, ev, topic.value) then multiset(ids[..i])[log.filterId] else 0
      {
        logs := logs + [LogFor(ids[i], ev, topic.value)];
        assert ids[..i + 1] == ids[..i] + [ids[i]];
      }
      assert ids[..|ids|] == ids;
      ok := true;
    }

    /** Stores the events in order, up to the first that fails. */
    method ProcessMessages(events: seq<Event>) returns (ok: bool)
      modifies this`logs
      ensures ok <==> Decodable(events)
      ensures Stored(filters.Now(), multiset(old(logs)), events, multiset(logs))
    {
      for i := 0 to |events|
        invariant Decodable(events[..i])
        invariant forall log :: multiset(logs)[log] == multiset(old(logs))[log] + LogCounts(filters.Now(), events[..i], log)
      {
        ghost var fs := filters.Now();
        forall log ensures LogCounts(fs, events[..i + 1], log) == LogCounts(fs, events[..i], log) + LogCount(fs, events[i], log) {
          LogCountsTake(fs, events, i, log);
        }
        var processed := Process(events[i]);
        if !processed {
          DecodablePartIs(events, i);
          return false;
        }
        assert events[..i + 1] == events[..i] + [events[i]];
      }
      assert events[..|events|] == events;
      DecodablePartIs(events, |events|);
      ok := true;
    }

    /** Fetches the window (cursor, to] for the watched addresses and processes what came. */
    method ProcessBlocksRange(w: World, env: PollEnv, addresses: seq<Address>, to: nat)
      returns (ok: bool, ghost batch: seq<Event>)
      requires ValidWorld(w) && lastProcessedSeqNo < to
      requires forall a :: a in addresses <==> a in filters.filtersByAddress
      requires forall i, j :: 0 <= i < j < |addresses| ==> addresses[i] != addresses[j]
      modifies this`logs
      ensures ok <==> AllDecodable(w, cfg, env, old(Now()), to)
      ensures IsBatch(w, cfg, env, old(Now()), to, batch)
      ensures Stored(filters.Now(), multiset(old(logs)), batch, multiset(logs))
    {
      ghost var s := Now();
      var events := BackfillForAddresses(w, addresses, lastProcessedSeqNo, to, cfg.pageSize, env.fetch);
      batch := events;
      assert IsBatch(w, cfg, env, s, to, events);
      BatchDecodable(w, cfg, env, s, to, events);
      ok := ProcessMessages(events);
    }

    /** One polling iteration. */
    method Run(w: World, env: PollEnv) returns (ghost batch: seq<Event>)
      requires ValidWorld(w)
      modifies this
      ensures PollStep(w, cfg, env, batch, old(Now()), Now())
    {
      batch := [];
      var lastProcessed := lastProcessedSeqNo;
      if !env.headOk { return; }
      var safe := SafeSeq(cfg, env.head);
      if safe < lastProcessed { return; }
      if safe == lastProcessed { return; }
      if !env.lookupToOk || safe > env.head { return; }
      var addresses := filters.GetDistinctAddresses();
      if |addresses| == 0 {
        assert filters.filtersByAddress.Keys == {};
        return;
      }
      assert addresses[0] in filters.filtersByAddress;
      if lastProcessed != 0 && !env.lookupPrevOk { return; }
      var ok;
      ok, batch := ProcessBlocksRange(w, env, addresses, safe);
      if !ok { return; }
      lastProcessedSeqNo := safe;
    }
  }

  lemma {:induction false} LogCountsTake(fs: State, events: seq<Event>, i: nat, log: Log)
    requires i < |events|
    ensures LogCounts(fs, events[..i + 1], log) == LogCounts(fs, events[..i], log) + LogCount(fs, events[i], log)
  {
    SliceSnoc(events, 0, i);
    LogCountsSplit(fs, events[..i], [events[i]], log);
  }

  lemma {:induction false} GainOfBatch(w: World, cfg: Config, env: PollEnv, s: St, to: nat, events: seq<Event>, log: Log)
    requires ValidWorld(w) && s.cursor < to && IsBatch(w, cfg, env, s, to, events)
    ensures LogCounts(s.filters, events, log) == Gain(w, cfg, env, s, to, log)
  {
    var own := if log.address in s.filters.byAddress then Got(w, cfg, env, s, to, log.address) else [];
    forall ev | ev in own ensures ev.src == log.address {
      assert ev in multiset(own);
      SegmentEventsAreOwn(w, log.address, s.cursor, to, cfg.pageSize, env.fetch(log.address), ev);
    }
    LogCountsByMultiset(s.filters, events, own, log);
  }

  lemma {:induction false} BatchDecodable(w: World, cfg: Config, env: PollEnv, s: St, to: nat, events: seq<Event>)
    requires ValidWorld(w) && s.cursor < to && IsBatch(w, cfg, env, s, to, events)
    ensures Decodable(events) <==> AllDecodable(w, cfg, env, s, to)
  {
    if Decodable(events) {
      forall a | a in s.filters.byAddress ensures Decodable(Got(w, cfg, env, s, to, a)) {
        forall i | 0 <= i < |Got(w, cfg, env, s, to, a)| ensures TopicOf(Got(w, cfg, env, s, to, a)[i].dst).Some? {
          var ev := Got(w, cfg, env, s, to, a)[i];
          SegmentEventsAreOwn(w, a, s.cursor, to, cfg.pageSize, env.fetch(a), ev);
          assert multiset(events)[ev] == multiset(Got(w, cfg, env, s, to, a))[ev];
          assert ev in events;
        }
      }
    }
    if AllDecodable(w, cfg, env, s, to) {
      forall i | 0 <= i < |events| ensures TopicOf(events[i].dst).Some? {
        var ev := events[i];
        assert multiset(events)[ev] > 0;
        assert ev in Got(w, cfg, env, s, to, ev.src);
      }
    }
  }

  /** What a completed poll stores. */
  lemma {:induction false} CompletedPollStores(w: World, cfg: Config, env: PollEnv, batch: seq<Event>, s: St, to: nat, log: Log)
    requires ValidWorld(w) && s.cursor < to && IsBatch(w, cfg, env, s, to, batch) && AllDecodable(w, cfg, env, s, to)
    ensures LogCounts(s.filters, DecodablePart(batch), log) == Gain(w, cfg, env, s, to, log)
  {
    BatchDecodable(w, cfg, env, s, to, batch);
    assert batch[..|batch|] == batch;
    DecodablePartIs(batch, |batch|);
    GainOfBatch(w, cfg, env, s, to, batch, log);
  }
}
