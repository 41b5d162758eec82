/** What the stored logs say about the chain, field by field: which messages they come from, how often
    each is stored, and how far behind the head they are. */
module StoredLogs {
  import opened Prelude
  import opened Bits
  import opened Filters
  import opened TonChain
  import opened Loader
  import opened LogPoller
  import opened PollRuns

  /* ---------- one event ---------- */

  /** The log of an event: its transaction, its sender, its body, and as topic the number that the last
      four bytes of its destination form. */
  ghost predicate Records(log: Log, txHash: nat, lt: nat, src: Address, dst: Option<seq<Byte>>, body: Data) {
    && log.txHash == txHash && log.lt == lt && log.address == src && log.data == body
    && dst.Some? && |dst.value| >= 4 && log.topic == BigEndian(dst.value[|dst.value| - 4..])
  }

  /** An event asks for the logs that record it, once for every filter with the identifier of the log, and
      for no others. */
  lemma {:induction false} LogsRecordTheirEvent(fs: State, ev: Event, log: Log)
    ensures LogCount(fs, ev, log) ==
            if Records(log, ev.txHash, ev.lt, ev.src, ev.dst, ev.body)
            then MatchCount(fs, log.address, log.topic, log.filterId) else 0
  {
    TopicIsLastFourBytes(ev.dst);
  }

  /* ---------- whole chains ---------- */

  /** The message is an external-out one with a body, and the log records it. */
  ghost predicate IsSource(tx: Transaction, m: Message, log: Log) {
    m.ExternalOut? && m.body.Some? && Records(log, tx.hash, tx.lt, m.src, m.dst, m.body.value)
  }

  ghost function SourcesInTx(tx: Transaction, msgs: seq<Message>, log: Log): set<nat> {
    set k | 0 <= k < |msgs| && IsSource(tx, msgs[k], log)
  }

  /** The messages of a chain that the log records: the number of the transaction, and of the message. */
  ghost function Sources(txs: seq<Transaction>, log: Log): set<(nat, nat)> {
    set i, k | 0 <= i < |txs| && txs[i].out.Some? && k in SourcesInTx(txs[i], txs[i].out.value, log) :: (i, k)
  }

  lemma {:induction false} InSources(txs: seq<Transaction>, log: Log, i: nat, k: nat)
    ensures (i, k) in Sources(txs, log) <==>
            i < |txs| && txs[i].out.Some? && k < |txs[i].out.value| && IsSource(txs[i], txs[i].out.value[k], log)
  {
  }

  lemma {:induction false} TimesNext(n: nat, m: nat)
    ensures (n + 1) * m == n * m + m
  {
  }

  lemma {:induction false} SourcesInTxCount(fs: State, tx: Transaction, msgs: seq<Message>, log: Log)
    ensures LogCounts(fs, MessageEvents(tx, msgs), log) ==
            |SourcesInTx(tx, msgs, log)| * MatchCount(fs, log.address, log.topic, log.filterId)
    decreases |msgs|
  {
    if msgs == [] {
      assert SourcesInTx(tx, msgs, log) == {};
    } else {
      var n := |msgs| - 1;
      var before, last := msgs[..n], msgs[n];
      SourcesInTxCount(fs, tx, before, log);
      assert msgs == before + [last];
      MessageEventsSplit(tx, before, last);
      LogCountsSplit(fs, MessageEvents(tx, before), MessageEvents(tx, [last]), log);
      LastMessageCounts(fs, tx, last, log);
      SourcesOfLastMessage(tx, msgs, log);
      TimesNext(|SourcesInTx(tx, before, log)|, MatchCount(fs, log.address, log.topic, log.filterId));
    }
  }

  lemma {:induction false} SourcesOfLastMessage(tx: Transaction, msgs: seq<Message>, log: Log)
    requires msgs != []
    ensures var n := |msgs| - 1;
            |SourcesInTx(tx, msgs, log)| == |SourcesInTx(tx, msgs[..n], log)| + if IsSource(tx, msgs[n], log) then 1 else 0
  {
    var n := |msgs| - 1;
    var known := SourcesInTx(tx, msgs[..n], log);
    assert SourcesInTx(tx, msgs, log) == known + if IsSource(tx, msgs[n], log) then {n} else {};
    assert n !in known;
  }

  lemma {:induction false} LastMessageCounts(fs: State, tx: Transaction, m: Message, log: Log)
    ensures LogCounts(fs, MessageEvents(tx, [m]), log) ==
            if IsSource(tx, m, log) then MatchCount(fs, log.address, log.topic, log.filterId) else 0
  {
    EventOfOne(tx, m);
    if m.ExternalOut? && m.body.Some? {
      var ev := Event(tx.hash, tx.lt, m.src, m.dst, m.body.value);
      LogsRecordTheirEvent(fs, ev, log);
      assert [ev][1..] == [];
    }
  }

  /** A chain asks for a log once for every message that the log records and every filter with its
      identifier. */
  lemma {:induction false} SourcesCount(fs: State, txs: seq<Transaction>, log: Log)
    ensures LogCounts(fs, Events(txs), log) == |Sources(txs, log)| * MatchCount(fs, log.address, log.topic, log.filterId)
    decreases |txs|
  {
    if txs == [] {
      assert Sources(txs, log) == {};
    } else {
      var n := |txs| - 1;
      var before, tx := txs[..n], txs[n];
      SourcesCount(fs, before, log);
      assert txs == before + [tx];
      EventsSplit(before, [tx]);
      EventsOfOne(tx);
      LogCountsSplit(fs, Events(before), TxEvents(tx), log);
      var here := if tx.out.Some? then SourcesInTx(tx, tx.out.value, log) else {};
      if tx.out.Some? { SourcesInTxCount(fs, tx, tx.out.value, log); }
      SourcesOfLast(txs, log, here);
      Distributes(|Sources(before, log)|, |here|, MatchCount(fs, log.address, log.topic, log.filterId));
    }
  }

  lemma {:induction false} Distributes(a: nat, b: nat, m: nat)
    ensures (a + b) * m == a * m + b * m
  {
  }

  lemma {:induction false} SourcesOfLast(txs: seq<Transaction>, log: Log, here: set<nat>)
    requires txs != []
    requires var tx := txs[|txs| - 1]; here == if tx.out.Some? then SourcesInTx(tx, tx.out.value, log) else {}
    ensures |Sources(txs, log)| == |Sources(txs[..|txs| - 1], log)| + |here|
  {
    var n := |txs| - 1;
    forall i: nat, k: nat
      ensures (i, k) in Sources(txs, log) <==> (i, k) in Sources(txs[..n], log) || (i, k) in Paired(n, here)
      ensures (i, k) in Sources(txs[..n], log) ==> i < n
    {
      InSources(txs, log, i, k);
      InSources(txs[..n], log, i, k);
    }
    SplitSet(Sources(txs, log), Sources(txs[..n], log), Paired(n, here), n);
    PairedCount(n, here);
  }

  lemma {:induction false} SplitSet(all: set<(nat, nat)>, a: set<(nat, nat)>, b: set<(nat, nat)>, n: nat)
    requires forall i: nat, k: nat :: (i, k) in all <==> (i, k) in a || (i, k) in b
    requires forall i: nat, k: nat :: (i, k) in a ==> i < n
    requires forall i: nat, k: nat :: (i, k) in b ==> i == n
    ensures |all| == |a| + |b|
  {
    forall p: (nat, nat) ensures p in all <==> p in a + b {
      assert p == (p.0, p.1);
    }
    forall p: (nat, nat) ensures !(p in a && p in b) {
      assert p == (p.0, p.1);
    }
    assert all == a + b && a !! b;
  }

  ghost function Paired(n: nat, ks: set<nat>): set<(nat, nat)> {
    set k | k in ks :: (n, k)
  }

  lemma {:induction false} PairedCount(n: nat, ks: set<nat>)
    ensures |Paired(n, ks)| == |ks|
    decreases ks
  {
    if ks == {} {
      assert Paired(n, ks) == {};
    } else {
      var x :| x in ks;
      PairedCount(n, ks - {x});
      assert Paired(n, ks) == Paired(n, ks - {x}) + {(n, x)};
      assert (n, x) !in Paired(n, ks - {x});
    }
  }

  /* ---------- the ideal store ---------- */

  /** How many transactions of the account are in blocks up to the cursor; block 0 stands for none. */
  ghost function Reached(w: World, a: Address, cursor: nat): nat {
    if cursor == 0 then 0 else w.prefix(a, cursor)
  }

  /** The ideal store holds every log once for each message of its account up to the cursor that it
      records, and each filter with its identifier that matches; and none for an unwatched account. */
  lemma {:induction false} IdealIsByFields(w: World, fs: State, cursor: nat, log: Log)
    requires ValidWorld(w)
    ensures Reached(w, log.address, cursor) <= |w.txs(log.address)|
    ensures Ideal(w, fs, cursor, log) ==
            if log.address in fs.byAddress
            then |Sources(w.txs(log.address)[..Reached(w, log.address, cursor)], log)| *
                 MatchCount(fs, log.address, log.topic, log.filterId)
            else 0
  {
    assert w.prefix(log.address, cursor) <= |w.txs(log.address)|;
    SourcesCount(fs, w.txs(log.address)[..Reached(w, log.address, cursor)], log);
  }

  /** Exactly once, field by field: what a served run has stored at every moment. */
  lemma {:induction false} ExactlyOnceByFields(w: World, cfg: Config, run: Run, fs: State, log: Log)
    requires ValidWorld(w) && ValidRun(w, cfg, run) && FixedFilters(run, fs)
    requires cfg.pageSize >= 1 && AllServed(w, run) && TopicsDecode(w, fs)
    ensures Reached(w, log.address, Last(run).cursor) <= |w.txs(log.address)|
    ensures Last(run).store[log] ==
            if log.address in fs.byAddress
            then |Sources(w.txs(log.address)[..Reached(w, log.address, Last(run).cursor)], log)| *
                 MatchCount(fs, log.address, log.topic, log.filterId)
            else 0
  {
    ExactlyOnce(w, cfg, run, fs, log);
    IdealIsByFields(w, fs, Last(run).cursor, log);
  }

  /* ---------- confirmations ---------- */

  /** A poll processes a window exactly if the head is answered and more than the confirmations ahead of the
      cursor, the blocks can be looked up, and some account is watched; the window then ends exactly the
      confirmations behind the head. */
  lemma {:induction false} WindowEndsBehindHead(cfg: Config, env: PollEnv, s: St)
    ensures Target(cfg, env, s).Some? <==>
            && env.headOk && s.cursor + cfg.confirmations < env.head && env.lookupToOk
            && s.filters.byAddress != map[] && (s.cursor == 0 || env.lookupPrevOk)
    ensures Target(cfg, env, s).Some? ==> Target(cfg, env, s).value + cfg.confirmations == env.head
  {
    if cfg.confirmations <= env.head {
      assert SafeSeq(cfg, env.head) == env.head - cfg.confirmations;
    } else {
      assert SafeSeq(cfg, env.head) == env.head - cfg.confirmations + TWO_TO_32;
    }
    assert |s.filters.byAddress| == 0 <==> s.filters.byAddress == map[];
  }

  /** The size of the word in which the difference is computed. */
  lemma {:induction false} SeqNoWidth()
    ensures TWO_TO_32 == Pow2(32)
  {
    Width32();
  }

  /** Whenever a poll moves the cursor, it moves to exactly the confirmations behind the head it saw. */
  lemma {:induction false} CursorTrailsHead(w: World, cfg: Config, env: PollEnv, batch: seq<Event>, s: St, s': St)
    requires ValidWorld(w) && PollStep(w, cfg, env, batch, s, s') && s'.cursor != s.cursor
    ensures env.headOk && s'.cursor + cfg.confirmations == env.head
  {
    WindowEndsBehindHead(cfg, env, s);
  }

  /** The highest head that a poll of the run saw. */
  function HighestHead(run: Run): nat {
    if run.Begin? then 0
    else if run.move.Poll? && run.move.env.headOk then Max(HighestHead(run.before), run.move.env.head)
    else HighestHead(run.before)
  }

  lemma {:induction false} CountedHasMember(fs: State, events: seq<Event>, log: Log) returns (ev: Event)
    requires LogCounts(fs, events, log) > 0
    ensures ev in events && LogCount(fs, ev, log) > 0
  {
    if LogCount(fs, events[0], log) > 0 {
      ev := events[0];
    } else {
      ev := CountedHasMember(fs, events[1..], log);
    }
  }

  lemma {:induction false} DecodableIsPart(events: seq<Event>, ev: Event)
    requires ev in DecodablePart(events)
    ensures ev in events
  {
    if ev == events[0] {
    } else {
      DecodableIsPart(events[1..], ev);
    }
  }

  /** What a poll fetched is on the chain, in a block up to the end of its window. */
  lemma {:induction false} FetchedIsOnChain(w: World, cfg: Config, env: PollEnv, s: St, to: nat, batch: seq<Event>, ev: Event)
    requires ValidWorld(w) && s.cursor < to && IsBatch(w, cfg, env, s, to, batch) && ev in batch
    ensures Reached(w, ev.src, to) <= |w.txs(ev.src)| && ev in Events(w.txs(ev.src)[..Reached(w, ev.src, to)])
  {
    var a := ev.src;
    assert multiset(batch)[ev] > 0;
    assert ev in Got(w, cfg, env, s, to, a);
    var (start, from, end) := Bounds(w, cfg, env, s, to, a);
    var reached := w.txs(a)[..end];
    assert reached[from..end] == w.txs(a)[from..end];
    PartOfEvents(reached, from, end, ev);
  }

  /** The log records some message of a block up to `b`. */
  ghost predicate RecordedBy(w: World, log: Log, b: nat)
    requires ValidWorld(w)
  {
    Reached(w, log.address, b) <= |w.txs(log.address)| &&
    Sources(w.txs(log.address)[..Reached(w, log.address, b)], log) != {}
  }

  lemma {:induction false} StoredByPoll(w: World, cfg: Config, env: PollEnv, batch: seq<Event>, s: St, to: nat, log: Log)
    requires ValidWorld(w) && s.cursor < to && IsBatch(w, cfg, env, s, to, batch)
    requires LogCounts(s.filters, DecodablePart(batch), log) > 0
    ensures RecordedBy(w, log, to)
  {
    var ev := CountedHasMember(s.filters, DecodablePart(batch), log);
    DecodableIsPart(batch, ev);
    FetchedIsOnChain(w, cfg, env, s, to, batch, ev);
    LogsRecordTheirEvent(s.filters, ev, log);
    MemberIsRecorded(s.filters, w.txs(log.address)[..Reached(w, log.address, to)], ev, log);
  }

  lemma {:induction false} PositiveFactor(n: nat, m: nat)
    requires n * m > 0
    ensures n > 0
  {
  }

  lemma {:induction false} MemberIsRecorded(fs: State, txs: seq<Transaction>, ev: Event, log: Log)
    requires ev in Events(txs) && LogCount(fs, ev, log) > 0
    ensures Sources(txs, log) != {}
  {
    LogCountsOfMember(fs, Events(txs), ev, log);
    SourcesCount(fs, txs, log);
    PositiveFactor(|Sources(txs, log)|, MatchCount(fs, log.address, log.topic, log.filterId));
  }

  /** Every stored log of every run, whatever fails, records a message of the chain in a block at least the
      confirmations behind some head that was seen. */
  lemma {:induction false} StoredLogsAreConfirmed(w: World, cfg: Config, run: Run, log: Log) returns (b: nat)
    requires ValidWorld(w) && ValidRun(w, cfg, run) && Last(run).store[log] > 0
    ensures b + cfg.confirmations <= HighestHead(run) && RecordedBy(w, log, b)
  {
    if run.Begin? {
      assert false;
    } else if Last(run.before).store[log] > 0 {
      b := StoredLogsAreConfirmed(w, cfg, run.before, log);
    } else {
      var env, s := run.move.env, Last(run.before);
      WindowEndsBehindHead(cfg, env, s);
      b := Target(cfg, env, s).value;
      StoredByPoll(w, cfg, env, run.move.batch, s, b, log);
    }
  }
}
