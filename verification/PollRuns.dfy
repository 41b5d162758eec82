/** Whole runs of the log poller: what every run conserves, and when every matching event is stored
    exactly once. */
module PollRuns {
  import opened Prelude
  import opened Filters
  import opened TonChain
  import opened Loader
  import opened LogPoller

  /** A poll in some environment, with the batch that it fetched; or a change of the registry between
      polls. */
  datatype Move = Poll(env: PollEnv, batch: seq<Event>) | Change(op: Op)

  datatype Run = Begin(filters: State) | Extend(before: Run, move: Move, now: St)

  function Last(run: Run): St {
    match run
    case Begin(fs) => St(0, multiset{}, fs)
    case Extend(_, _, now) => now
  }

  ghost predicate Step(w: World, cfg: Config, move: Move, s: St, s': St)
    requires ValidWorld(w)
  {
    match move
    case Poll(env, batch) => PollStep(w, cfg, env, batch, s, s')
    case Change(op) => s' == s.(filters := Apply(s.filters, op))
  }

  ghost predicate ValidRun(w: World, cfg: Config, run: Run)
    requires ValidWorld(w)
  {
    run.Begin? || (ValidRun(w, cfg, run.before) && Step(w, cfg, run.move, Last(run.before), run.now))
  }

  /** The window that a poll completes, if it completes one. */
  ghost function Completed(w: World, cfg: Config, env: PollEnv, s: St): Option<nat>
    requires ValidWorld(w)
  {
    var to := Target(cfg, env, s);
    if to.Some? && AllDecodable(w, cfg, env, s, to.value) then to else None
  }

  /* ---------- the ledger ---------- */

  ghost function Due(fs: State, txs: seq<Transaction>, log: Log): nat {
    if log.address in fs.byAddress then LogCounts(fs, Events(txs), log) else 0
  }

  lemma {:induction false} DueSplits(fs: State, txs: seq<Transaction>, a: nat, b: nat, c: nat, log: Log)
    requires a <= b <= c <= |txs|
    ensures Due(fs, txs[a..c], log) == Due(fs, txs[a..b], log) + Due(fs, txs[b..c], log)
  {
    SliceJoins(txs, a, b, c);
    EventsSplit(txs[a..b], txs[b..c]);
    LogCountsSplit(fs, Events(txs[a..b]), Events(txs[b..c]), log);
  }

  /** The three boundaries of a completed window, for the account of a log: where the window starts,
      where the fetch really started, and where both end. */
  ghost function Bounds(w: World, cfg: Config, env: PollEnv, s: St, to: nat, a: Address): (b: (nat, nat, nat))
    requires ValidWorld(w) && s.cursor < to
    ensures b.0 <= b.2 && b.1 <= b.2 <= |w.txs(a)|
  {
    WindowIsOrdered(w, a, s.cursor, to, env.fetch(a));
    (Start(w, a, s.cursor), From(w, a, s.cursor, to, cfg.pageSize, env.fetch(a)), w.prefix(a, to))
  }

  /** How often the poll should store the log. */
  ghost function StepDue(w: World, cfg: Config, env: PollEnv, s: St, log: Log): nat
    requires ValidWorld(w)
  {
    match Completed(w, cfg, env, s)
    case None => 0
    case Some(to) =>
      var (start, from, end) := Bounds(w, cfg, env, s, to, log.address);
      Due(s.filters, w.txs(log.address)[start..end], log)
  }

  /** What a failed or truncated fetch leaves out of the window. */
  ghost function StepLost(w: World, cfg: Config, env: PollEnv, s: St, log: Log): nat
    requires ValidWorld(w)
  {
    match Completed(w, cfg, env, s)
    case None => 0
    case Some(to) =>
      var (start, from, end) := Bounds(w, cfg, env, s, to, log.address);
      if start < from then Due(s.filters, w.txs(log.address)[start..from], log) else 0
  }

  /** What is stored again: a fetch that starts before the window, or a poll that stops half-way. */
  ghost function StepExtra(w: World, cfg: Config, env: PollEnv, batch: seq<Event>, s: St, log: Log): nat
    requires ValidWorld(w)
  {
    match Completed(w, cfg, env, s)
    case None => if Target(cfg, env, s).Some? then LogCounts(s.filters, DecodablePart(batch), log) else 0
    case Some(to) =>
      var (start, from, end) := Bounds(w, cfg, env, s, to, log.address);
      if from < start then Due(s.filters, w.txs(log.address)[from..start], log) else 0
  }

  ghost function TotalDue(w: World, cfg: Config, run: Run, log: Log): nat
    requires ValidWorld(w)
  {
    if run.Begin? then 0
    else TotalDue(w, cfg, run.before, log) +
         if run.move.Poll? then StepDue(w, cfg, run.move.env, Last(run.before), log) else 0
  }

  ghost function TotalLost(w: World, cfg: Config, run: Run, log: Log): nat
    requires ValidWorld(w)
  {
    if run.Begin? then 0
    else TotalLost(w, cfg, run.before, log) +
         if run.move.Poll? then StepLost(w, cfg, run.move.env, Last(run.before), log) else 0
  }

  ghost function TotalExtra(w: World, cfg: Config, run: Run, log: Log): nat
    requires ValidWorld(w)
  {
    if run.Begin? then 0
    else TotalExtra(w, cfg, run.before, log) +
         if run.move.Poll? then StepExtra(w, cfg, run.move.env, run.move.batch, Last(run.before), log) else 0
  }

  lemma {:induction false} PollBalances(w: World, cfg: Config, env: PollEnv, batch: seq<Event>, s: St, s': St, log: Log)
    requires ValidWorld(w) && PollStep(w, cfg, env, batch, s, s')
    ensures s'.store[log] + StepLost(w, cfg, env, s, log) ==
            s.store[log] + StepDue(w, cfg, env, s, log) + StepExtra(w, cfg, env, batch, s, log)
  {
    match Completed(w, cfg, env, s) {
      case None =>
      case Some(to) =>
        var a := log.address;
        var (start, from, end) := Bounds(w, cfg, env, s, to, a);
        CompletedPollStores(w, cfg, env, batch, s, to, log);
        assert Gain(w, cfg, env, s, to, log) == Due(s.filters, w.txs(a)[from..end], log);
        if start < from {
          DueSplits(s.filters, w.txs(a), start, from, end, log);
        } else {
          DueSplits(s.filters, w.txs(a), from, start, end, log);
          assert start == from ==> Due(s.filters, w.txs(a)[from..start], log) == 0;
        }
    }
  }

  /** Conservation, for every run whatever fails: of every log, what is stored and what was lost add
      up to what was due and what was stored again. */
  lemma {:induction false} Conservation(w: World, cfg: Config, run: Run, log: Log)
    requires ValidWorld(w) && ValidRun(w, cfg, run)
    ensures Last(run).store[log] + TotalLost(w, cfg, run, log) ==
            TotalDue(w, cfg, run, log) + TotalExtra(w, cfg, run, log)
  {
    if run.Begin? {
    } else {
      Conservation(w, cfg, run.before, log);
      if run.move.Poll? {
        PollBalances(w, cfg, run.move.env, run.move.batch, Last(run.before), run.now, log);
      }
    }
  }

  /* ---------- windows ---------- */

  /** The completed windows of a run, in order. */
  ghost function Windows(w: World, cfg: Config, run: Run): seq<(nat, nat)>
    requires ValidWorld(w)
  {
    if run.Begin? then []
    else
      Windows(w, cfg, run.before) +
      if run.move.Poll? && Completed(w, cfg, run.move.env, Last(run.before)).Some?
      then [(Last(run.before).cursor, Completed(w, cfg, run.move.env, Last(run.before)).value)] else []
  }

  /** Nonempty windows, each starting where the one before ended, from block 0 to `cursor`. */
  ghost predicate Tiles(windows: seq<(nat, nat)>, cursor: nat) {
    if windows == [] then cursor == 0
    else
      var last := windows[|windows| - 1];
      last.1 == cursor && last.0 < last.1 && Tiles(windows[..|windows| - 1], last.0)
  }

  lemma {:induction false} TilesExtend(windows: seq<(nat, nat)>, prev: nat, to: nat)
    requires Tiles(windows, prev) && prev < to
    ensures Tiles(windows + [(prev, to)], to)
  {
    var all := windows + [(prev, to)];
    assert all[..|all| - 1] == windows;
  }

  lemma {:induction false} PollMovesCursor(w: World, cfg: Config, env: PollEnv, batch: seq<Event>, s: St, s': St)
    requires ValidWorld(w) && PollStep(w, cfg, env, batch, s, s')
    ensures var to := Completed(w, cfg, env, s);
            if to.Some? then s.cursor < to.value == s'.cursor else s'.cursor == s.cursor
  {
  }

  /** The cursor never moves back, and the windows tile the blocks up to it without gap or overlap. */
  lemma {:induction false} WindowsTile(w: World, cfg: Config, run: Run)
    requires ValidWorld(w) && ValidRun(w, cfg, run)
    ensures Tiles(Windows(w, cfg, run), Last(run).cursor)
    ensures run.Extend? ==> Last(run.before).cursor <= Last(run).cursor
  {
    if run.Begin? {
    } else {
      WindowsTile(w, cfg, run.before);
      var done, s := Windows(w, cfg, run.before), Last(run.before);
      assert done + [] == done;
      if run.move.Poll? {
        PollMovesCursor(w, cfg, run.move.env, run.move.batch, s, run.now);
        var to := Completed(w, cfg, run.move.env, s);
        if to.Some? { TilesExtend(done, s.cursor, to.value); }
      }
    }
  }

  /* ---------- exactly once ---------- */

  /** The registry stays the same throughout the run. */
  ghost predicate FixedFilters(run: Run, fs: State) {
    Last(run).filters == fs && (run.Extend? ==> FixedFilters(run.before, fs))
  }

  /** The log once for every matching filter of every matching event up to the cursor. */
  ghost function Ideal(w: World, fs: State, cursor: nat, log: Log): nat
    requires ValidWorld(w)
  {
    assert w.prefix(log.address, cursor) <= |w.txs(log.address)|;
    Due(fs, w.txs(log.address)[..Start(w, log.address, cursor)], log)
  }

  /** Under a fixed registry the windows add up to the whole chain below the cursor. */
  lemma {:induction false} DueIsIdeal(w: World, cfg: Config, run: Run, fs: State, log: Log)
    requires ValidWorld(w) && ValidRun(w, cfg, run) && FixedFilters(run, fs)
    ensures TotalDue(w, cfg, run, log) == Ideal(w, fs, Last(run).cursor, log)
  {
    if run.Begin? {
    } else {
      DueIsIdeal(w, cfg, run.before, fs, log);
      if run.move.Poll? {
        var env, s := run.move.env, Last(run.before);
        var to := Completed(w, cfg, env, s);
        if to.Some? {
          var (start, from, end) := Bounds(w, cfg, env, s, to.value, log.address);
          DueSplits(fs, w.txs(log.address), 0, start, end, log);
        }
      }
    }
  }

  /** The distance of the store from the ideal one is what was lost less what was stored again. */
  lemma {:induction false} DistanceFromIdeal(w: World, cfg: Config, run: Run, fs: State, log: Log)
    requires ValidWorld(w) && ValidRun(w, cfg, run) && FixedFilters(run, fs)
    ensures Last(run).store[log] + TotalLost(w, cfg, run, log) ==
            Ideal(w, fs, Last(run).cursor, log) + TotalExtra(w, cfg, run, log)
  {
    Conservation(w, cfg, run, log);
    DueIsIdeal(w, cfg, run, fs, log);
  }

  /* ---------- exactly when ---------- */

  /** No event of the list matches a filter. */
  ghost predicate NoneMatches(fs: State, events: seq<Event>) {
    forall ev :: ev in events && TopicOf(ev.dst).Some? ==>
      forall id :: MatchCount(fs, ev.src, TopicOf(ev.dst).value, id) == 0
  }

  lemma {:induction false} LogCountsOfMember(fs: State, events: seq<Event>, ev: Event, log: Log)
    requires ev in events
    ensures LogCounts(fs, events, log) >= LogCount(fs, ev, log)
  {
    if events[0] == ev {
    } else {
      LogCountsOfMember(fs, events[1..], ev, log);
    }
  }

  lemma {:induction false} NoneMatchesCountsZero(fs: State, events: seq<Event>, log: Log)
    requires NoneMatches(fs, events)
    ensures LogCounts(fs, events, log) == 0
  {
    if events == [] {
    } else {
      assert events[0] in events && forall ev :: ev in events[1..] ==> ev in events;
      NoneMatchesCountsZero(fs, events[1..], log);
    }
  }

  /** A list stores nothing if and only if none of its events matches a filter. */
  lemma {:induction false} NoneMatchesIff(fs: State, events: seq<Event>)
    ensures NoneMatches(fs, events) <==> forall log :: LogCounts(fs, events, log) == 0
    ensures NoneMatches(fs, events) <==>
            forall log: Log :: (exists ev: Event :: ev in events && ev.src == log.address) ==> LogCounts(fs, events, log) == 0
  {
    if NoneMatches(fs, events) {
      forall log ensures LogCounts(fs, events, log) == 0 { NoneMatchesCountsZero(fs, events, log); }
    } else {
      var ev :| ev in events && TopicOf(ev.dst).Some? &&
        !(forall id :: MatchCount(fs, ev.src, TopicOf(ev.dst).value, id) == 0);
      var id :| MatchCount(fs, ev.src, TopicOf(ev.dst).value, id) != 0;
      var log := LogFor(id, ev, TopicOf(ev.dst).value);
      LogCountsOfMember(fs, events, ev, log);
      assert ev.src == log.address;
    }
  }

  /** The transactions between where the window of an account starts and where its fetch starts: lost if
      the window starts first, fetched again if the fetch does. */
  ghost function Gap(w: World, cfg: Config, env: PollEnv, s: St, to: nat, a: Address): seq<Transaction>
    requires ValidWorld(w) && s.cursor < to
  {
    var (start, from, end) := Bounds(w, cfg, env, s, to, a);
    if start <= from then w.txs(a)[start..from] else w.txs(a)[from..start]
  }

  /** A poll that neither loses nor repeats a log: a completed one whose gaps hold no event that matches
      a filter, or an unfinished one that met no such event before the one that stopped it. */
  ghost predicate Clean(w: World, cfg: Config, env: PollEnv, batch: seq<Event>, s: St)
    requires ValidWorld(w)
  {
    match Target(cfg, env, s)
    case None => true
    case Some(to) =>
      if AllDecodable(w, cfg, env, s, to)
      then forall a :: a in s.filters.byAddress ==> NoneMatches(s.filters, Events(Gap(w, cfg, env, s, to, a)))
      else NoneMatches(s.filters, DecodablePart(batch))
  }

  lemma {:induction false} GapIsLostOrExtra(w: World, cfg: Config, env: PollEnv, batch: seq<Event>, s: St, to: nat, log: Log)
    requires ValidWorld(w) && Completed(w, cfg, env, s) == Some(to)
    ensures StepLost(w, cfg, env, s, log) + StepExtra(w, cfg, env, batch, s, log) ==
            Due(s.filters, Gap(w, cfg, env, s, to, log.address), log)
    ensures StepLost(w, cfg, env, s, log) == 0 || StepExtra(w, cfg, env, batch, s, log) == 0
  {
    var a := log.address;
    var (start, from, end) := Bounds(w, cfg, env, s, to, a);
    if start == from { assert w.txs(a)[start..from] == []; }
  }

  lemma {:induction false} GapEventsAreOwn(w: World, cfg: Config, env: PollEnv, s: St, to: nat, a: Address)
    requires ValidWorld(w) && s.cursor < to
    ensures forall ev :: ev in Events(Gap(w, cfg, env, s, to, a)) ==> ev.src == a
  {
    var (start, from, end) := Bounds(w, cfg, env, s, to, a);
    assert ValidAccount(a, w.txs(a));
    forall ev | ev in Events(Gap(w, cfg, env, s, to, a)) ensures ev.src == a {
      if start <= from {
        PartOfEvents(w.txs(a), start, from, ev);
      } else {
        PartOfEvents(w.txs(a), from, start, ev);
      }
    }
  }

  lemma {:induction false} CleanGap(w: World, cfg: Config, env: PollEnv, batch: seq<Event>, s: St, to: nat, a: Address)
    requires ValidWorld(w) && Completed(w, cfg, env, s) == Some(to) && a in s.filters.byAddress
    ensures NoneMatches(s.filters, Events(Gap(w, cfg, env, s, to, a))) <==>
            forall log: Log :: log.address == a ==> StepLost(w, cfg, env, s, log) == 0 == StepExtra(w, cfg, env, batch, s, log)
  {
    GapEventsAreOwn(w, cfg, env, s, to, a);
    var gap := Gap(w, cfg, env, s, to, a);
    NoneMatchesIff(s.filters, Events(gap));
    forall log: Log | log.address == a
      ensures StepLost(w, cfg, env, s, log) + StepExtra(w, cfg, env, batch, s, log) == LogCounts(s.filters, Events(gap), log)
    {
      GapIsLostOrExtra(w, cfg, env, batch, s, to, log);
    }
  }

  ghost predicate Balanced(w: World, cfg: Config, env: PollEnv, batch: seq<Event>, s: St, log: Log)
    requires ValidWorld(w)
  {
    StepLost(w, cfg, env, s, log) == StepExtra(w, cfg, env, batch, s, log)
  }

  lemma {:induction false} CleanIsBalanced(w: World, cfg: Config, env: PollEnv, batch: seq<Event>, s: St, log: Log)
    requires ValidWorld(w) && Clean(w, cfg, env, batch, s)
    ensures Balanced(w, cfg, env, batch, s, log)
  {
    var to := Target(cfg, env, s);
    if to.Some? {
      if !AllDecodable(w, cfg, env, s, to.value) {
        NoneMatchesIff(s.filters, DecodablePart(batch));
      } else if log.address in s.filters.byAddress {
        CleanGap(w, cfg, env, batch, s, to.value, log.address);
      } else {
        GapIsLostOrExtra(w, cfg, env, batch, s, to.value, log);
      }
    }
  }

  lemma {:induction false} BalancedIsClean(w: World, cfg: Config, env: PollEnv, batch: seq<Event>, s: St)
    requires ValidWorld(w) && forall log :: Balanced(w, cfg, env, batch, s, log)
    ensures Clean(w, cfg, env, batch, s)
  {
    var to := Target(cfg, env, s);
    if to.Some? {
      if AllDecodable(w, cfg, env, s, to.value) {
        forall a | a in s.filters.byAddress ensures NoneMatches(s.filters, Events(Gap(w, cfg, env, s, to.value, a))) {
          BalancedGap(w, cfg, env, batch, s, to.value, a);
        }
      } else {
        forall log ensures LogCounts(s.filters, DecodablePart(batch), log) == 0 {
          assert Balanced(w, cfg, env, batch, s, log);
        }
        NoneMatchesIff(s.filters, DecodablePart(batch));
      }
    }
  }

  lemma {:induction false} BalancedGap(w: World, cfg: Config, env: PollEnv, batch: seq<Event>, s: St, to: nat, a: Address)
    requires ValidWorld(w) && Completed(w, cfg, env, s) == Some(to) && a in s.filters.byAddress
    requires forall log :: Balanced(w, cfg, env, batch, s, log)
    ensures NoneMatches(s.filters, Events(Gap(w, cfg, env, s, to, a)))
  {
    forall log: Log | log.address == a ensures StepLost(w, cfg, env, s, log) == 0 == StepExtra(w, cfg, env, batch, s, log) {
      assert Balanced(w, cfg, env, batch, s, log);
      GapIsLostOrExtra(w, cfg, env, batch, s, to, log);
    }
    CleanGap(w, cfg, env, batch, s, to, a);
  }

  /** A poll is clean if and only if losses and repetitions balance: it never does both to one log. */
  lemma {:induction false} CleanIff(w: World, cfg: Config, env: PollEnv, batch: seq<Event>, s: St)
    requires ValidWorld(w)
    ensures Clean(w, cfg, env, batch, s) <==> forall log :: Balanced(w, cfg, env, batch, s, log)
  {
    if Clean(w, cfg, env, batch, s) {
      forall log ensures Balanced(w, cfg, env, batch, s, log) { CleanIsBalanced(w, cfg, env, batch, s, log); }
    }
    if forall log :: Balanced(w, cfg, env, batch, s, log) { BalancedIsClean(w, cfg, env, batch, s); }
  }

  ghost predicate IsIdeal(w: World, run: Run, fs: State, log: Log)
    requires ValidWorld(w)
  {
    Last(run).store[log] == Ideal(w, fs, Last(run).cursor, log)
  }

  /** At every moment of the run the store is the ideal one. */
  ghost predicate AlwaysIdeal(w: World, run: Run, fs: State)
    requires ValidWorld(w)
  {
    && (forall log :: IsIdeal(w, run, fs, log))
    && (run.Extend? ==> AlwaysIdeal(w, run.before, fs))
  }

  ghost predicate AllClean(w: World, cfg: Config, run: Run)
    requires ValidWorld(w)
  {
    run.Extend? ==>
      && AllClean(w, cfg, run.before)
      && (run.move.Poll? ==> Clean(w, cfg, run.move.env, run.move.batch, Last(run.before)))
  }

  /** Exactly once, exactly when: in a run over a fixed registry the store is at every moment the ideal one
      if and only if every poll is clean. */
  lemma {:induction false} ExactlyOnceIff(w: World, cfg: Config, run: Run, fs: State)
    requires ValidWorld(w) && ValidRun(w, cfg, run) && FixedFilters(run, fs)
    ensures AlwaysIdeal(w, run, fs) <==> AllClean(w, cfg, run)
  {
    if run.Begin? {
      forall log ensures Ideal(w, fs, 0, log) == 0 { NothingDueAtStart(w, fs, log); }
    } else {
      ExactlyOnceIff(w, cfg, run.before, fs);
      if AlwaysIdeal(w, run.before, fs) { StaysIdealIff(w, cfg, run, fs); }
    }
  }

  lemma {:induction false} NothingDueAtStart(w: World, fs: State, log: Log)
    requires ValidWorld(w)
    ensures Ideal(w, fs, 0, log) == 0
  {
    assert w.txs(log.address)[..0] == [];
  }

  /** From an ideal store a step leads to an ideal store if and only if it is no poll, or a clean one. */
  lemma {:induction false} StaysIdealIff(w: World, cfg: Config, run: Run, fs: State)
    requires ValidWorld(w) && run.Extend? && ValidRun(w, cfg, run) && FixedFilters(run, fs)
    requires forall log :: IsIdeal(w, run.before, fs, log)
    ensures (forall log :: IsIdeal(w, run, fs, log)) <==>
            (run.move.Poll? ==> Clean(w, cfg, run.move.env, run.move.batch, Last(run.before)))
  {
    forall log ensures IsIdeal(w, run, fs, log) <==>
      (run.move.Poll? ==> Balanced(w, cfg, run.move.env, run.move.batch, Last(run.before), log))
    {
      assert IsIdeal(w, run.before, fs, log);
      LogStaysIdealIff(w, cfg, run, fs, log);
    }
    if run.move.Poll? { CleanIff(w, cfg, run.move.env, run.move.batch, Last(run.before)); }
  }

  lemma {:induction false} LogStaysIdealIff(w: World, cfg: Config, run: Run, fs: State, log: Log)
    requires ValidWorld(w) && run.Extend? && ValidRun(w, cfg, run) && FixedFilters(run, fs)
    requires IsIdeal(w, run.before, fs, log)
    ensures IsIdeal(w, run, fs, log) <==>
            (run.move.Poll? ==> Balanced(w, cfg, run.move.env, run.move.batch, Last(run.before), log))
  {
    DistanceFromIdeal(w, cfg, run, fs, log);
    DistanceFromIdeal(w, cfg, run.before, fs, log);
  }

  /* ---------- served runs ---------- */

  /** A poll in which the watched accounts are served: the state at the previous block is answered
      unless the account had no transaction, the state at the new block is answered, and no page is
      refused. The head and the block lookups may still fail. */
  ghost predicate Serves(w: World, env: PollEnv, s: St) {
    forall a :: a in s.filters.byAddress ==>
      (env.fetch(a).prevOk || Start(w, a, s.cursor) == 0) && Serving(env.fetch(a))
  }

  ghost predicate AllServed(w: World, run: Run) {
    run.Extend? ==> AllServed(w, run.before) && (run.move.Poll? ==> Serves(w, run.move.env, Last(run.before)))
  }

  /** Every event of every watched account has a topic. */
  ghost predicate TopicsDecode(w: World, fs: State) {
    forall a :: a in fs.byAddress ==> Decodable(Events(w.txs(a)))
  }

  lemma {:induction false} SegmentDecodes(txs: seq<Transaction>, i: nat, j: nat)
    requires i <= j <= |txs| && Decodable(Events(txs))
    ensures Decodable(Events(txs[i..j]))
  {
    SliceJoins(txs, 0, i, j);
    SliceJoins(txs, 0, j, |txs|);
    EventsSplit(txs[0..j], txs[j..|txs|]);
    EventsSplit(txs[0..i], txs[i..j]);
    assert txs[0..|txs|] == txs;
    PartDecodes(Events(txs[0..i]), Events(txs[i..j]), Events(txs[j..|txs|]));
  }

  lemma {:induction false} PartDecodes(a: seq<Event>, b: seq<Event>, c: seq<Event>)
    requires Decodable(a + b + c)
    ensures Decodable(b)
  {
    forall k | 0 <= k < |b| ensures TopicOf(b[k].dst).Some? {
      assert (a + b + c)[|a| + k] == b[k];
    }
  }

  lemma {:induction false} FetchedDecodes(w: World, cfg: Config, env: PollEnv, s: St, to: nat)
    requires ValidWorld(w) && s.cursor < to && TopicsDecode(w, s.filters)
    ensures AllDecodable(w, cfg, env, s, to)
  {
    forall a | a in s.filters.byAddress ensures Decodable(Got(w, cfg, env, s, to, a)) {
      var (start, from, end) := Bounds(w, cfg, env, s, to, a);
      SegmentDecodes(w.txs(a), from, end);
    }
  }

  lemma {:induction false} ServedBounds(w: World, cfg: Config, env: PollEnv, s: St, to: nat, a: Address)
    requires ValidWorld(w) && s.cursor < to && cfg.pageSize >= 1 && Serves(w, env, s) && a in s.filters.byAddress
    ensures Bounds(w, cfg, env, s, to, a).0 == Bounds(w, cfg, env, s, to, a).1
  {
    WindowIsOrdered(w, a, s.cursor, to, env.fetch(a));
    WalkReachesStart(Start(w, a, s.cursor), w.prefix(a, to), cfg.pageSize, env.fetch(a).served);
  }

  lemma {:induction false} ServedPollIsClean(w: World, cfg: Config, env: PollEnv, batch: seq<Event>, s: St, log: Log)
    requires ValidWorld(w) && cfg.pageSize >= 1 && Serves(w, env, s) && TopicsDecode(w, s.filters)
    ensures StepLost(w, cfg, env, s, log) == 0 && StepExtra(w, cfg, env, batch, s, log) == 0
  {
    var to := Target(cfg, env, s);
    if to.Some? {
      FetchedDecodes(w, cfg, env, s, to.value);
      if log.address in s.filters.byAddress { ServedBounds(w, cfg, env, s, to.value, log.address); }
    }
  }

  /** Exactly once: in every run over a fixed registry in which the watched accounts are served and
      all topics decode, the store is at every moment exactly the ideal one for the cursor: any head
      movement, any schedule, any page size, any completion order. */
  lemma {:induction false} ExactlyOnce(w: World, cfg: Config, run: Run, fs: State, log: Log)
    requires ValidWorld(w) && ValidRun(w, cfg, run) && FixedFilters(run, fs)
    requires cfg.pageSize >= 1 && AllServed(w, run) && TopicsDecode(w, fs)
    ensures Last(run).store[log] == Ideal(w, fs, Last(run).cursor, log)
    ensures TotalLost(w, cfg, run, log) == 0 && TotalExtra(w, cfg, run, log) == 0
  {
    NothingLost(w, cfg, run, fs, log);
    DistanceFromIdeal(w, cfg, run, fs, log);
  }

  lemma {:induction false} NothingLost(w: World, cfg: Config, run: Run, fs: State, log: Log)
    requires ValidWorld(w) && FixedFilters(run, fs)
    requires cfg.pageSize >= 1 && AllServed(w, run) && TopicsDecode(w, fs)
    ensures TotalLost(w, cfg, run, log) == 0 && TotalExtra(w, cfg, run, log) == 0
  {
    if run.Begin? {
    } else {
      NothingLost(w, cfg, run.before, fs, log);
      if run.move.Poll? {
        ServedPollIsClean(w, cfg, run.move.env, run.move.batch, Last(run.before), log);
      }
    }
  }

  /** Exactly when a fetch returns its window and nothing else, for every answer of the network. A fetch
      that fails does so only for an empty window. If the previous state is answered, or nothing is before
      the window, no page that is asked for within the window may be refused. If the previous state is
      refused, the fetch reads back through the history, and must be stopped by a refused page just where
      the window starts. */
  lemma {:induction false} FetchIsExactIff(w: World, cfg: Config, env: PollEnv, s: St, to: nat, a: Address)
    requires ValidWorld(w) && s.cursor < to
    ensures var (start, from, end) := Bounds(w, cfg, env, s, to, a);
            var fetch, size := env.fetch(a), cfg.pageSize;
            from == start <==>
            if FetchFails(w, a, s.cursor, to, size, fetch) then start == end
            else if fetch.prevOk || start == 0 then Answered(Asked(start, end, size, fetch.served), start, size, fetch.served)
            else start in Asked(0, end, size, fetch.served) && PageLen(start, size, fetch.served) == 0
  {
    var (start, from, end) := Bounds(w, cfg, env, s, to, a);
    WalkReachesStartIff(start, end, cfg.pageSize, env.fetch(a).served);
    WalkStopsAtIff(end, start, cfg.pageSize, env.fetch(a).served);
  }

  /** A fetch that fails for one account loses the due logs of that account's window: the poll still
      completes, and the cursor moves past them. */
  lemma {:induction false} FailedFetchLosesWindow(w: World, cfg: Config, env: PollEnv, s: St, log: Log)
    requires ValidWorld(w) && Completed(w, cfg, env, s).Some?
    requires FetchFails(w, log.address, s.cursor, Completed(w, cfg, env, s).value, cfg.pageSize, env.fetch(log.address))
    ensures StepLost(w, cfg, env, s, log) == StepDue(w, cfg, env, s, log)
  {
    var to := Completed(w, cfg, env, s).value;
    var (start, from, end) := Bounds(w, cfg, env, s, to, log.address);
    if start == end { assert w.txs(log.address)[start..end] == []; }
  }
}
