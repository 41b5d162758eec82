/** The transaction manager (`pkg/txm/txm.go`) as a protocol: callers enqueue, one loop broadcasts,
    one loop confirms, and their steps interleave in any order. */
module Txm {
  import opened Prelude
  import opened Sorting
  import opened Traces
  import opened TxStores

  /** Size of the broadcast channel, number of send attempts (at least one), retry delay in seconds. */
  datatype Config = Config(queueSize: nat, maxAttempts: nat, retryDelaySecs: nat)

  /** What the broadcast loop is doing. */
  datatype Phase = Idle | Sending(id: nat, failures: nat) | Sent(tx: BroadcastTx)

  /** Accepted requests are numbered from zero; `pass` is what the confirm loop still has to look at. */
  datatype Sys = Sys(
    accepted: nat, queue: seq<nat>, phase: Phase, dropped: set<nat>, store: Store, pass: seq<UnconfirmedTx>)

  const START := Sys(0, [], Idle, {}, TxStores.EMPTY, [])

  datatype Move =
    | Enqueue(canSign: bool)
    | Take(stateInitOk: bool)
    | SendFails(stopped: bool)
    | SendSucceeds(trace: Trace)
    | Record
    | BeginPass(snapshot: seq<UnconfirmedTx>)
    | Confirm(resolved: bool)

  /** Logical time in seconds plus the retry delay. */
  function ExpirationOf(cfg: Config, lt: nat): nat {
    lt / 1000 + cfg.retryDelaySecs
  }

  /** Whole seconds of the logical time, taken as milliseconds, plus the retry delay. */
  lemma {:induction false} ExpirationIsInSeconds(cfg: Config, lt: nat)
    ensures var secs := ExpirationOf(cfg, lt) - cfg.retryDelaySecs; 1000 * secs <= lt < 1000 * secs + 1000
  {
  }

  /** The transaction is stored unless its logical time is taken; then it is dropped with an error. */
  function Recorded(cfg: Config, s: Sys, tx: BroadcastTx): Sys {
    var lt := tx.trace.tx.lt;
    var added := AddUnconfirmed(s.store, lt, ExpirationOf(cfg, lt), tx);
    if added.Ok? then s.(phase := Idle, store := added.value) else s.(phase := Idle, dropped := s.dropped + {tx.id})
  }

  /** What confirming the first transaction of the pass attempts, once its trace is resolved. */
  ghost function Finalized(s: Sys): Result<Store>
    requires s.pass != []
  {
    var u := s.pass[0];
    MarkFinalized(s.store, u.lt, TraceSucceeds(u.tx.trace), Outcome(u.tx.trace))
  }

  ghost predicate Step(cfg: Config, move: Move, s: Sys, s': Sys) {
    match move
    case Enqueue(canSign) =>
      s' == if canSign && |s.queue| < cfg.queueSize
            then s.(accepted := s.accepted + 1, queue := s.queue + [s.accepted]) else s
    case Take(stateInitOk) =>
      && s.phase == Idle && s.queue != []
      && s' == if stateInitOk then s.(queue := s.queue[1..], phase := Sending(s.queue[0], 0))
               else s.(queue := s.queue[1..], dropped := s.dropped + {s.queue[0]})
    case SendFails(stopped) =>
      && s.phase.Sending?
      && s' == if stopped || s.phase.failures + 1 >= cfg.maxAttempts
               then s.(phase := Idle, dropped := s.dropped + {s.phase.id})
               else s.(phase := Sending(s.phase.id, s.phase.failures + 1))
    case SendSucceeds(trace) =>
      && s.phase.Sending? && OnChain(trace)
      && s' == s.(phase := Sent(BroadcastTx(s.phase.id, trace)))
    case Record =>
      s.phase.Sent? && s' == Recorded(cfg, s, s.phase.tx)
    case BeginPass(snapshot) =>
      s.pass == [] && IsSnapshot(s.store, snapshot) && s' == s.(pass := snapshot)
    case Confirm(resolved) =>
      && s.pass != []
      && (resolved ==> BelowReadable(s.pass[0].tx.trace))
      && s' == s.(pass := s.pass[1..], store := if resolved && Finalized(s).Ok? then Finalized(s).value else s.store)
  }

  /* ---------- runs ---------- */

  datatype Run = Begin | Extend(before: Run, move: Move, now: Sys)

  function Last(run: Run): Sys {
    if run.Begin? then START else run.now
  }

  ghost predicate ValidRun(cfg: Config, run: Run) {
    run.Begin? || (ValidRun(cfg, run.before) && Step(cfg, run.move, Last(run.before), run.now))
  }

  /* ---------- every request is in one place ---------- */

  /** The logical times under which a request is unconfirmed, or finalized. */
  function UnconfirmedLTs(s: Store, id: nat): set<nat> {
    set lt | lt in s.unconfirmed && s.unconfirmed[lt].tx.id == id
  }

  function FinalizedLTs(s: Store, id: nat): set<nat> {
    set lt | lt in s.finalized && s.finalized[lt].tx.id == id
  }

  function InPhase(p: Phase, id: nat): nat {
    match p
    case Idle => 0
    case Sending(i, _) => if i == id then 1 else 0
    case Sent(tx) => if tx.id == id then 1 else 0
  }

  /** In how many places a request is: queued, being broadcast, dropped, unconfirmed, finalized. */
  function Places(s: Sys, id: nat): nat {
    multiset(s.queue)[id] + InPhase(s.phase, id) + (if id in s.dropped then 1 else 0) +
    |UnconfirmedLTs(s.store, id)| + |FinalizedLTs(s.store, id)|
  }

  /** How many requests are in any of these places. */
  function Population(s: Sys): nat {
    |s.queue| + (if s.phase == Idle then 0 else 1) + |s.dropped| + |s.store.unconfirmed| + |s.store.finalized|
  }

  /* ---------- the invariant ---------- */

  /** No logical time is both unconfirmed and finalized, and records are kept under their own. */
  ghost predicate StoreOk(s: Store) {
    && s.unconfirmed.Keys !! s.finalized.Keys
    && Keyed(s)
    && (forall lt :: lt in s.unconfirmed ==> s.unconfirmed[lt].tx.trace.tx.lt == lt && OnChain(s.unconfirmed[lt].tx.trace))
    && (forall lt :: lt in s.finalized ==> RecordOk(s.finalized[lt], lt))
  }

  /** A finalized record says what the chain says, about a completely resolved trace. */
  ghost predicate RecordOk(f: FinalizedTx, lt: nat) {
    && f.tx.trace.tx.lt == lt && OnChain(f.tx.trace) && BelowReadable(f.tx.trace)
    && (f.succeeded <==> TraceSucceeds(f.tx.trace))
    && f.exitCode == Outcome(f.tx.trace)
  }

  /** What is left of a pass is still unconfirmed, each transaction once. */
  ghost predicate PassOk(s: Store, pass: seq<UnconfirmedTx>) {
    && (forall i :: 0 <= i < |pass| ==> pass[i].lt in s.unconfirmed && s.unconfirmed[pass[i].lt] == pass[i])
    && (forall i, j :: 0 <= i < j < |pass| ==> pass[i].lt != pass[j].lt)
  }

  ghost predicate Inv(s: Sys) {
    && StoreOk(s.store)
    && PassOk(s.store, s.pass)
    && (s.phase.Sent? ==> OnChain(s.phase.tx.trace))
    && Counted(s)
  }

  /** Every accepted request is in exactly one place, and nothing else is in any. */
  ghost predicate Counted(s: Sys) {
    && (forall id: nat :: Places(s, id) == if id < s.accepted then 1 else 0)
    && Population(s) == s.accepted
  }

  lemma {:induction false} StoreAdd(s: Store, lt: nat, expiration: nat, tx: BroadcastTx, id: nat)
    requires AddUnconfirmed(s, lt, expiration, tx).Ok?
    ensures var s' := AddUnconfirmed(s, lt, expiration, tx).value;
            && |UnconfirmedLTs(s', id)| == |UnconfirmedLTs(s, id)| + (if tx.id == id then 1 else 0)
            && FinalizedLTs(s', id) == FinalizedLTs(s, id)
  {
    UnconfirmedAfterAdd(s, lt, expiration, tx, id);
    FinalizedAfterAdd(s, lt, expiration, tx, id);
    assert lt !in UnconfirmedLTs(s, id);
  }

  lemma {:induction false} UnconfirmedAfterAdd(s: Store, lt: nat, expiration: nat, tx: BroadcastTx, id: nat)
    requires AddUnconfirmed(s, lt, expiration, tx).Ok?
    ensures UnconfirmedLTs(AddUnconfirmed(s, lt, expiration, tx).value, id) ==
            UnconfirmedLTs(s, id) + if tx.id == id then {lt} else {}
  {
  }

  lemma {:induction false} FinalizedAfterAdd(s: Store, lt: nat, expiration: nat, tx: BroadcastTx, id: nat)
    requires AddUnconfirmed(s, lt, expiration, tx).Ok?
    ensures FinalizedLTs(AddUnconfirmed(s, lt, expiration, tx).value, id) == FinalizedLTs(s, id)
  {
  }

  lemma {:induction false} UnconfirmedAfterFinalize(s: Store, lt: nat, succeeded: bool, exitCode: int, id: nat)
    requires MarkFinalized(s, lt, succeeded, exitCode).Ok?
    ensures UnconfirmedLTs(MarkFinalized(s, lt, succeeded, exitCode).value, id) == UnconfirmedLTs(s, id) - {lt}
  {
  }

  lemma {:induction false} FinalizedAfterFinalize(s: Store, lt: nat, succeeded: bool, exitCode: int, id: nat)
    requires MarkFinalized(s, lt, succeeded, exitCode).Ok?
    ensures FinalizedLTs(MarkFinalized(s, lt, succeeded, exitCode).value, id) ==
            FinalizedLTs(s, id) + if s.unconfirmed[lt].tx.id == id then {lt} else {}
  {
  }

  lemma {:induction false} StoreFinalize(s: Store, lt: nat, succeeded: bool, exitCode: int, id: nat)
    requires MarkFinalized(s, lt, succeeded, exitCode).Ok?
    ensures var s' := MarkFinalized(s, lt, succeeded, exitCode).value;
            |UnconfirmedLTs(s', id)| + |FinalizedLTs(s', id)| == |UnconfirmedLTs(s, id)| + |FinalizedLTs(s, id)|
  {
    UnconfirmedAfterFinalize(s, lt, succeeded, exitCode, id);
    FinalizedAfterFinalize(s, lt, succeeded, exitCode, id);
    assert lt in UnconfirmedLTs(s, id) <==> s.unconfirmed[lt].tx.id == id;
    assert lt !in FinalizedLTs(s, id);
  }

  lemma {:induction false} StoreFinalizeSize(s: Store, lt: nat, succeeded: bool, exitCode: int)
    requires MarkFinalized(s, lt, succeeded, exitCode).Ok?
    ensures var s' := MarkFinalized(s, lt, succeeded, exitCode).value;
            |s'.unconfirmed| + |s'.finalized| == |s.unconfirmed| + |s.finalized|
  {
    var s' := MarkFinalized(s, lt, succeeded, exitCode).value;
    assert s'.unconfirmed.Keys == s.unconfirmed.Keys - {lt};
    assert |s'.unconfirmed.Keys| == |s'.unconfirmed| && |s.unconfirmed.Keys| == |s.unconfirmed|;
  }

  /* ---------- every step keeps it ---------- */

  /** The error branches of finalizing cannot be reached: what a pass looks at is still unconfirmed. */
  lemma {:induction false} FinalizeNeverFails(s: Sys)
    requires Inv(s) && s.pass != []
    ensures Finalized(s).Ok?
  {
    assert s.pass[0].lt in s.store.unconfirmed;
  }

  lemma {:induction false} StoreOkAfterFinalize(s: Sys)
    requires Inv(s) && s.pass != [] && BelowReadable(s.pass[0].tx.trace)
    ensures Finalized(s).Ok? && StoreOk(Finalized(s).value) && PassOk(Finalized(s).value, s.pass[1..])
  {
    FinalizeNeverFails(s);
    var u, s' := s.pass[0], Finalized(s).value;
    assert s.store.unconfirmed[u.lt] == u;
    assert RecordOk(s'.finalized[u.lt], u.lt);
    forall i | 0 <= i < |s.pass[1..]|
      ensures s.pass[1..][i].lt in s'.unconfirmed && s'.unconfirmed[s.pass[1..][i].lt] == s.pass[1..][i]
    {
      assert s.pass[1..][i] == s.pass[i + 1];
    }
  }

  lemma {:induction false} QueuePop(q: seq<nat>)
    requires q != []
    ensures multiset(q) == multiset(q[1..]) + multiset{q[0]}
  {
    assert q == [q[0]] + q[1..];
  }

  lemma {:induction false} RecordCounts(cfg: Config, s: Sys, s': Sys)
    requires Counted(s) && Step(cfg, Record, s, s')
    ensures Counted(s')
  {
    var tx := s.phase.tx;
    assert Places(s, tx.id) <= 1;
    assert tx.id !in s.dropped;
    forall id: nat ensures Places(s', id) == Places(s, id) {
      RecordMovesOne(cfg, s, s', id);
    }
  }

  lemma {:induction false} RecordMovesOne(cfg: Config, s: Sys, s': Sys, id: nat)
    requires Step(cfg, Record, s, s') && s.phase.tx.id !in s.dropped
    ensures Places(s', id) == Places(s, id)
  {
    var tx := s.phase.tx;
    var lt := tx.trace.tx.lt;
    if AddUnconfirmed(s.store, lt, ExpirationOf(cfg, lt), tx).Ok? {
      StoreAdd(s.store, lt, ExpirationOf(cfg, lt), tx, id);
    }
  }

  lemma {:induction false} ConfirmCounts(s: Sys, s': Sys)
    requires Counted(s) && s.pass != [] && Finalized(s).Ok?
    requires s' == s.(pass := s.pass[1..], store := Finalized(s).value)
    ensures Counted(s')
  {
    var u := s.pass[0];
    var succeeded, exitCode := TraceSucceeds(u.tx.trace), Outcome(u.tx.trace);
    forall id: nat ensures Places(s', id) == Places(s, id) {
      StoreFinalize(s.store, u.lt, succeeded, exitCode, id);
    }
    StoreFinalizeSize(s.store, u.lt, succeeded, exitCode);
  }

  lemma {:induction false} TakeCounts(cfg: Config, stateInitOk: bool, s: Sys, s': Sys)
    requires Counted(s) && Step(cfg, Take(stateInitOk), s, s')
    ensures Counted(s')
  {
    QueuePop(s.queue);
    assert Places(s, s.queue[0]) <= 1;
    assert s.queue[0] !in s.dropped;
    forall id: nat ensures Places(s', id) == Places(s, id) {}
  }

  lemma {:induction false} SendFailsCounts(cfg: Config, stopped: bool, s: Sys, s': Sys)
    requires Counted(s) && Step(cfg, SendFails(stopped), s, s')
    ensures Counted(s')
  {
    assert Places(s, s.phase.id) <= 1;
    assert s.phase.id !in s.dropped;
    forall id: nat ensures Places(s', id) == Places(s, id) {}
  }

  lemma {:induction false} EnqueueCounts(cfg: Config, canSign: bool, s: Sys, s': Sys)
    requires Counted(s) && Step(cfg, Enqueue(canSign), s, s')
    ensures Counted(s')
  {
    if s' != s {
      forall id: nat ensures Places(s', id) == Places(s, id) + if id == s.accepted then 1 else 0 {}
    }
  }

  /** Every step of every kind keeps the invariant. */
  lemma {:induction false} StepKeepsInv(cfg: Config, move: Move, s: Sys, s': Sys)
    requires Inv(s) && Step(cfg, move, s, s')
    ensures Inv(s')
  {
    match move {
      case Enqueue(canSign) => EnqueueCounts(cfg, canSign, s, s');
      case Take(stateInitOk) => TakeCounts(cfg, stateInitOk, s, s');
      case SendFails(stopped) => SendFailsCounts(cfg, stopped, s, s');
      case SendSucceeds(_) =>
        assert forall id: nat :: Places(s', id) == Places(s, id);
      case Record => RecordCounts(cfg, s, s');
      case BeginPass(_) =>
        assert forall id: nat :: Places(s', id) == Places(s, id);
      case Confirm(resolved) => ConfirmKeeps(cfg, resolved, s, s');
    }
  }

  lemma {:induction false} ConfirmKeeps(cfg: Config, resolved: bool, s: Sys, s': Sys)
    requires Inv(s) && Step(cfg, Confirm(resolved), s, s')
    ensures Inv(s')
  {
    if resolved {
      StoreOkAfterFinalize(s);
      ConfirmCounts(s, s');
    } else {
      assert forall id: nat :: Places(s', id) == Places(s, id);
      assert PassOk(s.store, s.pass[1..]);
    }
  }

  lemma {:induction false} StartIsCounted()
    ensures Counted(START)
  {
    forall id: nat ensures Places(START, id) == 0 {
      assert UnconfirmedLTs(TxStores.EMPTY, id) == {} && FinalizedLTs(TxStores.EMPTY, id) == {};
    }
  }

  /** In every reachable state: maps disjoint, records true, every accepted request in exactly one
      place, and accepted = queued + being broadcast + dropped + unconfirmed + finalized. */
  lemma {:induction false} RunsKeepInv(cfg: Config, run: Run)
    requires ValidRun(cfg, run)
    ensures Inv(Last(run))
  {
    if run.Begin? {
      StartIsCounted();
    } else {
      RunsKeepInv(cfg, run.before);
      StepKeepsInv(cfg, run.move, Last(run.before), run.now);
    }
  }

  /* ---------- reported statuses ---------- */

  datatype Status = Unknown | Pending | Unconfirmed | FinalizedOk | Failed

  /** `GetTransactionStatus`: status, exit code and action fees; an error is reported exactly with
      Unknown. */
  function StatusOf(s: Store, lt: nat): (Status, int, nat) {
    match GetTxState(s, lt)
    case TxUnknown => (Unknown, 0, 0)
    case TxCascading => (Pending, 0, 0)
    case TxFinalized(succeeded, exitCode, fees) => if succeeded then (FinalizedOk, exitCode, fees) else (Failed, exitCode, fees)
  }

  /** Unconfirmed transactions are pending, finalized ones final with their record, all others unknown. */
  lemma {:induction false} StatusByRecord(s: Store, lt: nat)
    requires StoreOk(s)
    ensures StatusOf(s, lt).0 == Pending <==> lt in s.unconfirmed
    ensures StatusOf(s, lt).0 == Unknown <==> lt !in s.unconfirmed && lt !in s.finalized
    ensures lt in s.finalized ==>
              && StatusOf(s, lt).0 == (if s.finalized[lt].succeeded then FinalizedOk else Failed)
              && StatusOf(s, lt).1 == s.finalized[lt].exitCode
              && StatusOf(s, lt).2 == ActionFeesOf(s.finalized[lt].tx.trace.tx)
    ensures lt !in s.finalized ==> StatusOf(s, lt).1 == 0 && StatusOf(s, lt).2 == 0
  {
    if lt in s.finalized { InfoDescribes(s.finalized[lt].tx.trace.tx); }
  }

  function Rank(st: Status): nat {
    match st
    case Unknown => 0
    case Pending => 1
    case Unconfirmed => 1
    case FinalizedOk => 2
    case Failed => 2
  }

  /** In every reachable state a final status tells the truth about a completely resolved trace: final
      success exactly if every transaction of the trace succeeded, and the exit code of the first
      failing one in preorder. */
  lemma {:induction false} StatusAgreesWithChain(cfg: Config, run: Run, lt: nat)
    requires ValidRun(cfg, run) && Rank(StatusOf(Last(run).store, lt).0) == 2
    ensures lt in Last(run).store.finalized
    ensures var t := Last(run).store.finalized[lt].tx.trace;
            && t.tx.lt == lt && OnChain(t) && BelowReadable(t)
            && (StatusOf(Last(run).store, lt).0 == FinalizedOk <==> TraceSucceeds(t))
            && StatusOf(Last(run).store, lt).1 == Outcome(t)
            && StatusOf(Last(run).store, lt).2 == ActionFeesOf(t.tx)
  {
    RunsKeepInv(cfg, run);
    StatusByRecord(Last(run).store, lt);
    assert RecordOk(Last(run).store.finalized[lt], lt);
  }

  lemma {:induction false} StepKeepsFinal(cfg: Config, move: Move, s: Sys, s': Sys, lt: nat)
    requires Inv(s) && Step(cfg, move, s, s')
    ensures lt in s.store.finalized ==> lt in s'.store.finalized && s'.store.finalized[lt] == s.store.finalized[lt]
    ensures lt in s.store.unconfirmed ==> lt in s'.store.unconfirmed || lt in s'.store.finalized
  {
    if move.Confirm? { FinalizeNeverFails(s); }
  }

  lemma {:induction false} StepMovesForward(cfg: Config, move: Move, s: Sys, s': Sys, lt: nat)
    requires Inv(s) && Step(cfg, move, s, s')
    ensures Rank(StatusOf(s.store, lt).0) <= Rank(StatusOf(s'.store, lt).0)
    ensures lt in s.store.finalized ==> lt in s'.store.finalized && s'.store.finalized[lt] == s.store.finalized[lt]
    ensures Rank(StatusOf(s.store, lt).0) == 2 ==> StatusOf(s'.store, lt) == StatusOf(s.store, lt)
  {
    StepKeepsInv(cfg, move, s, s');
    StepKeepsFinal(cfg, move, s, s', lt);
    assert lt in s'.store.finalized ==> lt !in s'.store.unconfirmed;
  }

  /** One run continues another. */
  ghost predicate Continues(later: Run, earlier: Run) {
    later == earlier || (later.Extend? && Continues(later.before, earlier))
  }

  /** Statuses only move from unknown over pending to final, and a finalized record never changes. */
  lemma {:induction false} StatusOnlyMovesForward(cfg: Config, earlier: Run, later: Run, lt: nat)
    requires ValidRun(cfg, later) && Continues(later, earlier)
    ensures Rank(StatusOf(Last(earlier).store, lt).0) <= Rank(StatusOf(Last(later).store, lt).0)
    ensures lt in Last(earlier).store.finalized ==>
              && lt in Last(later).store.finalized
              && Last(later).store.finalized[lt] == Last(earlier).store.finalized[lt]
    ensures Rank(StatusOf(Last(earlier).store, lt).0) == 2 ==> StatusOf(Last(later).store, lt) == StatusOf(Last(earlier).store, lt)
  {
    if later == earlier {
    } else {
      StatusOnlyMovesForward(cfg, earlier, later.before, lt);
      RunsKeepInv(cfg, later.before);
      StepMovesForward(cfg, later.move, Last(later.before), later.now, lt);
    }
  }

  /** A pass never meets a transaction that the store refuses to finalize, in any interleaving. */
  lemma {:induction false} ConfirmNeverMeetsAnError(cfg: Config, run: Run)
    requires ValidRun(cfg, run) && Last(run).pass != []
    ensures Finalized(Last(run)).Ok?
  {
    RunsKeepInv(cfg, run);
    FinalizeNeverFails(Last(run));
  }

  /* ---------- attempts ---------- */

  /** How often sending the request has failed. */
  function FailedSends(run: Run, id: nat): nat {
    if run.Begin? then 0
    else
      var s := Last(run.before);
      FailedSends(run.before, id) + if run.move.SendFails? && s.phase.Sending? && s.phase.id == id then 1 else 0
  }

  /** A request is in one place only. */
  lemma {:induction false} OnePlace(s: Sys, id: nat)
    requires Counted(s) && s.phase.Sending? && s.phase.id == id
    ensures id !in s.queue && id < s.accepted && id !in s.dropped
  {
    assert Places(s, id) <= 1;
    assert id in s.queue ==> multiset(s.queue)[id] > 0;
  }

  lemma {:induction false} QueuedAreAccepted(s: Sys, id: nat)
    requires Counted(s) && id in s.queue
    ensures id < s.accepted
  {
    assert multiset(s.queue)[id] > 0;
    assert Places(s, id) > 0;
  }

  /** No attempt has been made for a request that waits in the queue or is still to come, and the broadcast
      loop counts the failed attempts for the one that it sends. */
  ghost predicate AttemptsOk(cfg: Config, s: Sys, failed: nat, id: nat) {
    && (id in s.queue || id >= s.accepted ==> failed == 0)
    && (s.phase.Sending? && s.phase.id == id ==>
          failed == s.phase.failures && (cfg.maxAttempts >= 1 ==> s.phase.failures < cfg.maxAttempts))
  }

  lemma {:induction false} StepCountsAttempts(cfg: Config, move: Move, s: Sys, s': Sys, failed: nat, id: nat)
    requires Step(cfg, move, s, s') && AttemptsOk(cfg, s, failed, id)
    requires s.phase.Sending? && s.phase.id == id ==> id !in s.queue && id < s.accepted
    requires id in s.queue ==> id < s.accepted
    ensures AttemptsOk(cfg, s', failed + if move.SendFails? && s.phase.Sending? && s.phase.id == id then 1 else 0, id)
  {
  }

  lemma {:induction false} AttemptsAreCounted(cfg: Config, run: Run, id: nat)
    requires ValidRun(cfg, run)
    ensures AttemptsOk(cfg, Last(run), FailedSends(run, id), id)
  {
    if run.Begin? {
    } else {
      AttemptsAreCounted(cfg, run.before, id);
      RequestPlaces(cfg, run.before, id);
      StepCountsAttempts(cfg, run.move, Last(run.before), run.now, FailedSends(run.before, id), id);
    }
  }

  lemma {:induction false} RequestPlaces(cfg: Config, run: Run, id: nat)
    requires ValidRun(cfg, run)
    ensures var s := Last(run);
            && (s.phase.Sending? && s.phase.id == id ==> id !in s.queue && id < s.accepted && id !in s.dropped)
            && (id in s.queue ==> id < s.accepted)
  {
    RunsKeepInv(cfg, run);
    var s := Last(run);
    if s.phase.Sending? && s.phase.id == id { OnePlace(s, id); }
    if id in s.queue { QueuedAreAccepted(s, id); }
  }

  /** Unless the manager is stopped, a failed attempt drops the request if and only if it is the last of the
      configured number of attempts. */
  lemma {:induction false} DroppedAfterLastAttempt(cfg: Config, run: Run, s': Sys, id: nat)
    requires ValidRun(cfg, run) && cfg.maxAttempts >= 1 && Last(run).phase.Sending? && Last(run).phase.id == id
    requires Step(cfg, SendFails(false), Last(run), s')
    ensures id in s'.dropped <==> FailedSends(Extend(run, SendFails(false), s'), id) == cfg.maxAttempts
    ensures FailedSends(Extend(run, SendFails(false), s'), id) <= cfg.maxAttempts
  {
    AttemptsAreCounted(cfg, run, id);
    RequestPlaces(cfg, run, id);
  }
}
