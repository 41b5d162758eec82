/** Runs of the log poller that miss the ideal store, one for each way of missing it: a failed fetch, a
    refused previous state, and a topic that cannot be decoded. */
module PollWitnesses {
  import opened Prelude
  import opened Bits
  import opened Filters
  import opened TonChain
  import opened Loader
  import opened LogPoller
  import opened PollRuns

  /* ---------- the scene ---------- */

  /** The account has one transaction, in block 1, with one event. */
  ghost predicate Emits(w: World, a: Address, ev: Event) {
    && |w.txs(a)| == 1 && Events(w.txs(a)) == [ev] && ev.src == a
    && (forall block: nat {:trigger w.prefix(a, block)} :: w.prefix(a, block) == if block == 0 then 0 else 1)
  }

  /** The event asks for this log, once, and for no other. */
  ghost predicate AsksFor(fs: State, ev: Event, log: Log) {
    && TopicOf(ev.dst).Some? && ev.src == log.address && ev.src in fs.byAddress
    && (forall l :: LogCounts(fs, [ev], l) == multiset{log}[l])
  }

  const CONFIG := Config(0, 1)

  /** The head is `head`, the blocks can be looked up, and all accounts are treated alike. */
  function Network(head: Uint32, fetch: FetchEnv): PollEnv {
    PollEnv(true, head, true, true, (a: Address) => fetch)
  }

  /** Every page is served, with one transaction; the account states may be refused. */
  function Answers(prevOk: bool, toOk: bool): FetchEnv {
    FetchEnv(prevOk, toOk, (i: nat) => 1, (i: nat) => false)
  }

  lemma {:induction false} DueOnce(w: World, fs: State, ev: Event, log: Log, cursor: nat)
    requires ValidWorld(w) && Emits(w, ev.src, ev) && AsksFor(fs, ev, log)
    ensures Ideal(w, fs, cursor, log) == if cursor == 0 then 0 else 1
  {
    var txs := w.txs(ev.src);
    assert txs[..0] == [] && txs[..1] == txs;
  }

  /** Every poll here has the next block as its target. */
  lemma {:induction false} TargetIsNext(head: Uint32, fetch: FetchEnv, s: St, a: Address)
    requires s.cursor + 1 == head && a in s.filters.byAddress
    ensures Target(CONFIG, Network(head, fetch), s) == Some(head)
  {
  }

  lemma {:induction false} NothingFetched(w: World, a: Address, prev: nat)
    requires ValidWorld(w)
    ensures Fetched(w, a, prev, prev + 1, 1, Answers(true, false)) == []
  {
    WindowIsOrdered(w, a, prev, prev + 1, Answers(true, false));
  }

  /** The whole account is fetched, in the first window, and again in a later one if the previous state is
      refused. */
  lemma {:induction false} EverythingFetched(w: World, a: Address, ev: Event, prev: nat, prevOk: bool)
    requires ValidWorld(w) && Emits(w, a, ev) && (prev == 0 || !prevOk)
    ensures Fetched(w, a, prev, prev + 1, 1, Answers(prevOk, true)) == w.txs(a)
  {
    var fetch := Answers(prevOk, true);
    WindowIsOrdered(w, a, prev, prev + 1, fetch);
    WalkReachesStart(0, 1, 1, fetch.served);
    assert w.txs(a)[0..1] == w.txs(a);
  }

  /** Processing the event, and then nothing more that can be decoded, adds the log. */
  lemma {:induction false} LogIsAdded(fs: State, ev: Event, log: Log, before: multiset<Log>, batch: seq<Event>)
    requires AsksFor(fs, ev, log) && |batch| >= 1 && batch[0] == ev && (|batch| >= 2 ==> TopicOf(batch[1].dst).None?)
    ensures Stored(fs, before, batch, before + multiset{log})
  {
    assert batch[..1] == [ev];
    DecodablePartIs(batch, 1);
  }

  /* ---------- runs ---------- */

  lemma {:induction false} FirstStep(w: World, cfg: Config, fs: State, move: Move, now: St)
    requires ValidWorld(w) && Step(w, cfg, move, St(0, multiset{}, fs), now) && now.filters == fs
    ensures var run := Extend(Begin(fs), move, now); ValidRun(w, cfg, run) && FixedFilters(run, fs)
  {
    var start := Begin(fs);
    assert ValidRun(w, cfg, start) && FixedFilters(start, fs);
  }

  /** A run over a fixed registry whose store is not the ideal one. */
  ghost predicate Misses(w: World, run: Run, fs: State, log: Log)
    requires ValidWorld(w)
  {
    ValidRun(w, CONFIG, run) && FixedFilters(run, fs) && !IsIdeal(w, run, fs, log)
  }

  /** The registry watches only the account of the event. */
  ghost predicate Alone(fs: State, a: Address) {
    forall x :: x in fs.byAddress <==> x == a
  }

  lemma {:induction false} FailingPoll(w: World, fs: State, a: Address)
    requires ValidWorld(w) && a in fs.byAddress
    ensures PollStep(w, CONFIG, Network(1, Answers(true, false)), [], St(0, multiset{}, fs), St(1, multiset{}, fs))
  {
    var s, env := St(0, multiset{}, fs), Network(1, Answers(true, false));
    TargetIsNext(1, Answers(true, false), s, a);
    forall x ensures Got(w, CONFIG, env, s, 1, x) == [] { NothingFetched(w, x, 0); }
  }

  /** A fetch that fails: the cursor moves, and the log is never stored. */
  lemma {:induction false} FailedFetchMisses(w: World, fs: State, ev: Event, log: Log) returns (run: Run)
    requires ValidWorld(w) && Emits(w, ev.src, ev) && AsksFor(fs, ev, log)
    ensures Misses(w, run, fs, log)
    ensures Last(run).store[log] == 0 && Ideal(w, fs, Last(run).cursor, log) == 1
  {
    var move, now := Poll(Network(1, Answers(true, false)), []), St(1, multiset{}, fs);
    FailingPoll(w, fs, ev.src);
    FirstStep(w, CONFIG, fs, move, now);
    run := Extend(Begin(fs), move, now);
    DueOnce(w, fs, ev, log, 1);
  }

  lemma {:induction false} WholePoll(w: World, fs: State, ev: Event, log: Log, prev: nat, prevOk: bool, before: multiset<Log>)
    requires ValidWorld(w) && Emits(w, ev.src, ev) && AsksFor(fs, ev, log) && Alone(fs, ev.src)
    requires prev <= 1 && (prev == 0 || !prevOk)
    ensures PollStep(w, CONFIG, Network(prev + 1, Answers(prevOk, true)), [ev],
                     St(prev, before, fs), St(prev + 1, before + multiset{log}, fs))
  {
    var s, env := St(prev, before, fs), Network(prev + 1, Answers(prevOk, true));
    TargetIsNext(prev + 1, Answers(prevOk, true), s, ev.src);
    EverythingFetched(w, ev.src, ev, prev, prevOk);
    assert Got(w, CONFIG, env, s, prev + 1, ev.src) == [ev];
    assert IsBatch(w, CONFIG, env, s, prev + 1, [ev]);
    assert AllDecodable(w, CONFIG, env, s, prev + 1);
    LogIsAdded(fs, ev, log, before, [ev]);
  }

  /** A good poll, then one in which the previous state is refused: the account is read from its beginning,
      and the log is stored twice. */
  lemma {:induction false} RefusedPreviousStateRepeats(w: World, fs: State, ev: Event, log: Log) returns (run: Run)
    requires ValidWorld(w) && Emits(w, ev.src, ev) && AsksFor(fs, ev, log) && Alone(fs, ev.src)
    ensures Misses(w, run, fs, log)
    ensures Last(run).store[log] == 2 && Ideal(w, fs, Last(run).cursor, log) == 1
  {
    var once := multiset{} + multiset{log};
    var first, middle := Poll(Network(1, Answers(true, true)), [ev]), St(1, once, fs);
    WholePoll(w, fs, ev, log, 0, true, multiset{});
    FirstStep(w, CONFIG, fs, first, middle);
    WholePoll(w, fs, ev, log, 1, false, once);
    run := Extend(Extend(Begin(fs), first, middle), Poll(Network(2, Answers(false, true)), [ev]), St(2, once + multiset{log}, fs));
    DueOnce(w, fs, ev, log, 2);
  }

  lemma {:induction false} StoppedPoll(w: World, fs: State, ev: Event, bad: Event, log: Log)
    requires ValidWorld(w) && Emits(w, ev.src, ev) && AsksFor(fs, ev, log)
    requires Emits(w, bad.src, bad) && TopicOf(bad.dst).None? && bad.src != ev.src
    requires forall x :: x in fs.byAddress <==> x == ev.src || x == bad.src
    ensures PollStep(w, CONFIG, Network(1, Answers(true, true)), [ev, bad],
                     St(0, multiset{}, fs), St(0, multiset{} + multiset{log}, fs))
  {
    var s, env := St(0, multiset{}, fs), Network(1, Answers(true, true));
    TargetIsNext(1, Answers(true, true), s, ev.src);
    EverythingFetched(w, ev.src, ev, 0, true);
    EverythingFetched(w, bad.src, bad, 0, true);
    assert Got(w, CONFIG, env, s, 1, ev.src) == [ev] && Got(w, CONFIG, env, s, 1, bad.src) == [bad];
    assert IsBatch(w, CONFIG, env, s, 1, [ev, bad]);
    assert !Decodable([bad]);
    assert !AllDecodable(w, CONFIG, env, s, 1);
    LogIsAdded(fs, ev, log, multiset{}, [ev, bad]);
  }

  /** An event without a topic, in the account whose fetch completes last: the log of the other account is
      stored, and the cursor stays before it. */
  lemma {:induction false} UndecodableTopicStores(w: World, fs: State, ev: Event, bad: Event, log: Log) returns (run: Run)
    requires ValidWorld(w) && Emits(w, ev.src, ev) && AsksFor(fs, ev, log)
    requires Emits(w, bad.src, bad) && TopicOf(bad.dst).None? && bad.src != ev.src
    requires forall x :: x in fs.byAddress <==> x == ev.src || x == bad.src
    ensures Misses(w, run, fs, log)
    ensures Last(run).store[log] == 1 && Ideal(w, fs, Last(run).cursor, log) == 0
  {
    var move, now := Poll(Network(1, Answers(true, true)), [ev, bad]), St(0, multiset{} + multiset{log}, fs);
    StoppedPoll(w, fs, ev, bad, log);
    FirstStep(w, CONFIG, fs, move, now);
    run := Extend(Begin(fs), move, now);
    DueOnce(w, fs, ev, log, 0);
  }

  /* ---------- such a scene exists ---------- */

  const ALICE: Address := "alice"
  const BOB: Address := "bob"
  const TOPIC: Topic := 7

  function OneEvent(a: Address, dst: Option<seq<Byte>>): seq<Transaction> {
    [Transaction(1, 1, 0, 0, Some([ExternalOut(a, dst, Some([]))]))]
  }

  function TxsOf(a: Address): seq<Transaction> {
    if a == ALICE then OneEvent(a, Some([0, 0, 0, 7])) else if a == BOB then OneEvent(a, None) else []
  }

  function PrefixOf(a: Address, block: nat): nat {
    if block == 0 then 0 else |TxsOf(a)|
  }

  lemma {:induction false} EventOf(a: Address, dst: Option<seq<Byte>>)
    ensures Events(OneEvent(a, dst)) == [Event(1, 1, a, dst, [])]
  {
    var tx, m := OneEvent(a, dst)[0], ExternalOut(a, dst, Some([]));
    EventsOfOne(tx);
    assert [m][1..] == [];
    assert MessageEvents(tx, []) == [];
  }

  lemma {:induction false} WorldIsValid()
    ensures ValidWorld(World(TxsOf, PrefixOf))
  {
    var w := World(TxsOf, PrefixOf);
    forall a ensures ValidAccount(a, w.txs(a)) {
      EventOf(ALICE, Some([0, 0, 0, 7]));
      EventOf(BOB, None);
    }
  }

  lemma {:induction false} OneFilterMatches(fs: State, ev: Event, f: Filter)
    requires TopicOf(ev.dst).Some? && Matches(f, ev.src, TopicOf(ev.dst).value) && Watched(fs, f.address, f.topic)
    requires f.name in fs.byName && fs.byName[f.name] == f
    requires forall n :: n in fs.byName && n != f.name ==> fs.byName[n].address != f.address
    ensures AsksFor(fs, ev, LogFor(f.id, ev, f.topic))
  {
    forall l ensures LogCounts(fs, [ev], l) == multiset{LogFor(f.id, ev, f.topic)}[l] {
      var names := NamesOf(fs.byName, f.address, f.topic, l.filterId);
      if l.filterId == f.id {
        assert names == {f.name};
      } else {
        assert names == {};
      }
      assert IdCount(fs.byName, f.address, f.topic, l.filterId) == |names|;
      assert [ev][1..] == [];
      assert LogCounts(fs, [], l) == 0;
    }
  }

  lemma {:induction false} SceneExists() returns (w: World, alone: State, both: State, ev: Event, bad: Event, log: Log)
    ensures ValidWorld(w) && Emits(w, ev.src, ev) && Emits(w, bad.src, bad) && TopicOf(bad.dst).None? && bad.src != ev.src
    ensures AsksFor(alone, ev, log) && Alone(alone, ev.src)
    ensures AsksFor(both, ev, log) && forall x :: x in both.byAddress <==> x == ev.src || x == bad.src
  {
    w := World(TxsOf, PrefixOf);
    WorldIsValid();
    EventOf(ALICE, Some([0, 0, 0, 7]));
    EventOf(BOB, None);
    ev, bad := Event(1, 1, ALICE, Some([0, 0, 0, 7]), []), Event(1, 1, BOB, None, []);
    var f, g := Filter(1, "f", ALICE, TOPIC), Filter(2, "g", BOB, TOPIC);
    alone := Register(Filters.EMPTY, f);
    both := Register(alone, g);
    log := LogFor(1, ev, TOPIC);
    assert TopicOf(ev.dst) == Some(TOPIC);
    OneFilterMatches(alone, ev, f);
    OneFilterMatches(both, ev, f);
  }

  /** There is such a run for each of the three, in one world. */
  lemma {:induction false} IdealIsMissed()
    returns (w: World, alone: State, both: State, log: Log, lost: Run, repeated: Run, early: Run)
    ensures ValidWorld(w) && Misses(w, lost, alone, log) && Misses(w, repeated, alone, log) && Misses(w, early, both, log)
  {
    var ev, bad;
    w, alone, both, ev, bad, log := SceneExists();
    lost := FailedFetchMisses(w, alone, ev, log);
    repeated := RefusedPreviousStateRepeats(w, alone, ev, log);
    early := UndecodableTopicStores(w, both, ev, bad, log);
  }
}
