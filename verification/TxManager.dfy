/** The transaction manager (`pkg/txm/txm.go`) as an object: one method for every atomic step of its
    callers and its two loops. Whatever the schedule, the object performs a run of the protocol, and the
    statuses that it reports are those of the chain. */
module TxManager {
  import opened Prelude
  import opened Traces
  import opened TxStores
  import opened ReceivedMessages
  import opened Txm

  /** Which step comes next, and how the world responds to it. */
  datatype Choice =
    | CallerEnqueues(canSign: bool)
    | LoopTakes(stateInitOk: bool)
    | SendingFails(stopped: bool)
    | SendingSucceeds(trace: Trace)
    | LoopRecords
    | PassBegins
    | PassGoesOn

  /** Subscriptions deliver what a sent transaction causes. */
  ghost predicate Possible(net: Network, c: Choice) {
    c.SendingSucceeds? ==> OnChain(c.trace) && Delivers(net, c.trace)
  }

  /** Steps of the callers and the broadcast loop. */
  ghost predicate Outside(net: Network, schedule: seq<Choice>) {
    forall c :: c in schedule ==> Possible(net, c) && !c.PassBegins? && !c.PassGoesOn?
  }

  class Manager {
    const cfg: Config
    const net: Network
    const store: TxStore
    /** The requests in the broadcast channel, and how many have been accepted. */
    var queue: seq<nat>
    var accepted: nat
    var phase: Phase
    ghost var dropped: set<nat>
    /** What the confirm loop still has to look at. */
    var pass: seq<UnconfirmedTx>
    /** The received message that each broadcast transaction holds. */
    var messages: map<BroadcastTx, ReceivedMessage>
    /** The steps so far. */
    ghost var run: Run

    ghost function Now(): Sys
      reads this, store
    {
      Sys(accepted, queue, phase, dropped, store.Now(), pass)
    }

    /** Every message is as it was mapped: no step changes one. */
    ghost predicate Untouched()
      reads this, messages.Values
    {
      forall tx :: tx in messages ==>
        messages[tx].Fresh() && messages[tx].trace == tx.trace && Delivers(net, tx.trace)
    }

    /** The transactions that may still be confirmed have their messages. */
    ghost predicate Carried()
      reads this, store
    {
      && (phase.Sent? ==> phase.tx in messages)
      && (forall lt :: lt in store.unconfirmedTxs ==> store.unconfirmedTxs[lt].tx in messages)
      && (forall i :: 0 <= i < |pass| ==> pass[i].tx in messages)
    }

    /** The object has performed a run of the protocol, with the messages that it needs to go on. */
    ghost predicate Valid()
      reads this, store, messages.Values
    {
      ValidRun(cfg, run) && Last(run) == Now() && Untouched() && Carried()
    }

    constructor (cfg: Config, net: Network)
      ensures Valid() && this.cfg == cfg && this.net == net && run == Begin && fresh(store)
    {
      this.cfg, this.net := cfg, net;
      store := new TxStore();
      queue, accepted, phase, dropped, pass, messages := [], 0, Idle, {}, [], map[];
      run := Begin;
    }

    /** Accepted unless the key cannot sign or the channel is full. */
    method Enqueue(canSign: bool) returns (ok: bool)
      requires Valid()
      modifies this
      ensures Valid() && run == Extend(old(run), Move.Enqueue(canSign), Now())
      ensures ok <==> accepted == old(accepted) + 1
    {
      ok := canSign && |queue| < cfg.queueSize;
      if ok { queue, accepted := queue + [accepted], accepted + 1; }
      run := Extend(run, Move.Enqueue(canSign), Now());
    }

    /** The broadcast loop takes a request; one whose initial state cannot be loaded is dropped. */
    method TakeRequest(stateInitOk: bool)
      requires Valid() && phase == Idle && queue != []
      modifies this
      ensures Valid() && run == Extend(old(run), Take(stateInitOk), Now())
    {
      var id := queue[0];
      queue := queue[1..];
      if stateInitOk { phase := Sending(id, 0); } else { dropped := dropped + {id}; }
      run := Extend(run, Take(stateInitOk), Now());
    }

    /** A send attempt fails: the last one, or one after which the manager is stopped, drops the request. */
    method FailToSend(stopped: bool)
      requires Valid() && phase.Sending?
      modifies this
      ensures Valid() && run == Extend(old(run), SendFails(stopped), Now())
    {
      if stopped || phase.failures + 1 >= cfg.maxAttempts {
        dropped := dropped + {phase.id};
        phase := Idle;
      } else {
        phase := Sending(phase.id, phase.failures + 1);
      }
      run := Extend(run, SendFails(stopped), Now());
    }

    /** A send attempt succeeds: the transaction that received the message is mapped. */
    method Send(trace: Trace)
      requires Valid() && phase.Sending? && OnChain(trace) && Delivers(net, trace)
      modifies this
      ensures Valid() && run == Extend(old(run), SendSucceeds(trace), Now())
    {
      var tx := BroadcastTx(phase.id, trace);
      var m := MapSent(trace);
      messages := messages[tx := m];
      assert Untouched();
      phase := Sent(tx);
      run := Extend(run, SendSucceeds(trace), Now());
    }

    /** The transaction that received the sent message, mapped. */
    static method MapSent(trace: Trace) returns (m: ReceivedMessage)
      requires OnChain(trace)
      ensures fresh(m) && m.Fresh() && m.trace == trace
    {
      m := new ReceivedMessage.Map(trace, trace.tx);
    }

    /** The sent transaction is stored as unconfirmed. */
    method RecordSent()
      requires Valid() && phase.Sent?
      modifies this, store
      ensures Valid() && run == Extend(old(run), Record, Now())
      ensures pass == old(pass) && OnlyAdds(old(store.Now()), store.Now())
    {
      var tx := phase.tx;
      var lt := tx.trace.tx.lt;
      var ok := store.Add(lt, ExpirationOf(cfg, lt), tx);
      if !ok { dropped := dropped + {tx.id}; }
      phase := Idle;
      assert Now() == Recorded(cfg, Last(run), tx);
      run := Extend(run, Record, Now());
    }

    /** The confirm loop takes a snapshot of what is unconfirmed. */
    method BeginConfirmPass()
      requires Valid() && pass == []
      modifies this
      ensures Valid() && IsSnapshot(store.Now(), pass) && run == Extend(old(run), BeginPass(pass), Now())
    {
      RunIsKeyed(cfg, run);
      pass := store.GetUnconfirmed();
      run := Extend(run, BeginPass(pass), Now());
    }

    /** The confirm loop resolves the trace of one transaction, on a copy of its message, and finalizes it
        with the outcome. */
    method ConfirmNext()
      requires Valid() && pass != []
      modifies this, store
      ensures Valid() && run == Extend(old(run), Confirm(BelowReadable(old(pass[0].tx.trace))), Now())
    {
      var u := pass[0];
      pass := pass[1..];
      var verdict := ConfirmOnCopy(messages[u.tx], net);
      ConfirmIsStep(cfg, Last(run), u);
      if verdict.Some? { var _ := store.Finalize(u.lt, verdict.value.0, verdict.value.1); }
      run := Extend(run, Confirm(BelowReadable(u.tx.trace)), Now());
    }

    /* ---------- schedules ---------- */

    /** Performs the chosen step of the callers or the broadcast loop, if it is possible in this state. */
    method DoOutside(c: Choice)
      requires Valid() && Possible(net, c) && !c.PassBegins? && !c.PassGoesOn?
      modifies this, store
      ensures Valid() && Continues(run, old(run)) && pass == old(pass) && OnlyAdds(old(store.Now()), store.Now())
    {
      match c {
        case CallerEnqueues(canSign) => var _ := Enqueue(canSign);
        case LoopTakes(ok) => if phase == Idle && queue != [] { TakeRequest(ok); }
        case SendingFails(stopped) => if phase.Sending? { FailToSend(stopped); }
        case SendingSucceeds(trace) => if phase.Sending? { Send(trace); }
        case LoopRecords => if phase.Sent? { RecordSent(); }
      }
    }

    /** Performs the chosen step, if it is possible in this state. */
    method Do(c: Choice)
      requires Valid() && Possible(net, c)
      modifies this, store
      ensures Valid() && Continues(run, old(run))
    {
      if c.PassBegins? {
        if pass == [] { BeginConfirmPass(); }
      } else if c.PassGoesOn? {
        if pass != [] { ConfirmNext(); }
      } else {
        DoOutside(c);
      }
    }

    /** Any schedule of the callers and the two loops. Statuses only move forward, and final ones stay. */
    method Interleave(schedule: seq<Choice>)
      requires Valid() && forall c :: c in schedule ==> Possible(net, c)
      modifies this, store
      ensures Valid() && Continues(run, old(run))
      ensures forall lt :: Forward(old(store.Now()), store.Now(), lt)
    {
      for i := 0 to |schedule|
        invariant Valid() && Continues(run, old(run))
      {
        ghost var before := run;
        Do(schedule[i]);
        ContinuesOn(run, before, old(run));
      }
      forall lt ensures Forward(old(store.Now()), store.Now(), lt) {
        StatusOnlyMovesForward(cfg, old(run), run, lt);
      }
    }

    /** Steps of the callers and the broadcast loop, in the middle of a pass. */
    method Interfere(schedule: seq<Choice>)
      requires Valid() && Outside(net, schedule)
      modifies this, store
      ensures Valid() && pass == old(pass) && OnlyAdds(old(store.Now()), store.Now())
    {
      for i := 0 to |schedule|
        invariant Valid() && pass == old(pass) && OnlyAdds(old(store.Now()), store.Now())
      {
        DoOutside(schedule[i]);
      }
    }

    /** One turn of a pass, after some steps of the others. */
    method ConfirmTurn(others: seq<Choice>, ghost before: Store, ghost snapshot: seq<UnconfirmedTx>, ghost n: nat)
      requires Valid() && n < |snapshot| && pass == snapshot[n..]
      requires Outside(net, others)
      requires IsSnapshot(before, snapshot) && AfterLooking(before, FirstLTs(snapshot, n), store.Now())
      modifies this, store
      ensures Valid() && pass == snapshot[n + 1..] && AfterLooking(before, FirstLTs(snapshot, n + 1), store.Now())
    {
      ghost var now := store.Now();
      Interfere(others);
      AddingKeeps(cfg, run, before, FirstLTs(snapshot, n), now);
      ghost var interfered := run;
      ConfirmNext();
      LookedAtNext(cfg, interfered, Now(), before, snapshot, n);
    }

    /** The turns of a pass over a snapshot. */
    method ConfirmTurns(others: nat -> seq<Choice>, ghost before: Store)
      requires Valid() && IsSnapshot(before, pass) && store.Now() == before && forall i :: Outside(net, others(i))
      modifies this, store
      ensures Valid() && pass == []
      ensures AfterLooking(before, FirstLTs(old(pass), |old(pass)|), store.Now())
    {
      ghost var snapshot := pass;
      LookedAtNone(before, snapshot);
      for turn := 0 to |pass|
        invariant Valid() && pass == snapshot[turn..]
        invariant AfterLooking(before, FirstLTs(snapshot, turn), store.Now())
      {
        ConfirmTurn(others(turn), before, snapshot, turn);
      }
    }

    /** A whole confirmation pass, with any steps of the callers and the broadcast loop between its turns:
        exactly the transactions that were unconfirmed at its beginning and whose traces can be resolved are
        finalized, each with the verdict of the chain; no other record changes. */
    method CheckUnconfirmed(others: nat -> seq<Choice>)
      requires Valid() && pass == [] && forall i :: Outside(net, others(i))
      modifies this, store
      ensures Valid() && pass == []
      ensures AfterLooking(old(store.Now()), old(store.Now()).unconfirmed.Keys, store.Now())
    {
      RunIsKeyed(cfg, run);
      BeginConfirmPass();
      SnapshotCovers(store.Now(), pass);
      ConfirmTurns(others, store.Now());
    }

    /* ---------- queries ---------- */

    /** A final status is about a transaction whose trace is completely resolved; it is success exactly if
        every transaction of the trace succeeded, and the exit code is that of the first failing one. An
        unconfirmed transaction is pending, and any other is unknown. */
    method GetTransactionStatus(lt: nat) returns (status: Status, exitCode: int, actionFees: nat)
      requires Valid()
      ensures status == Pending <==> lt in store.unconfirmedTxs
      ensures status == Unknown <==> lt !in store.unconfirmedTxs && lt !in store.finalizedTxs
      ensures status in {Unknown, Pending} ==> exitCode == 0 && actionFees == 0
      ensures status in {FinalizedOk, Failed} <==> lt in store.finalizedTxs
      ensures lt in store.finalizedTxs ==>
                var t := store.finalizedTxs[lt].tx.trace;
                && t.tx.lt == lt && OnChain(t) && BelowReadable(t)
                && (status == FinalizedOk <==> TraceSucceeds(t)) && exitCode == Outcome(t) && actionFees == ActionFeesOf(t.tx)
    {
      var reported := StatusOf(store.Now(), lt);
      status, exitCode, actionFees := reported.0, reported.1, reported.2;
      StatusOfRun(cfg, run, lt);
    }

    /** Queued and unconfirmed requests; with those being broadcast, dropped or finalized they are all
        that were accepted. */
    method InflightCount() returns (queued: nat, unconfirmed: nat)
      requires Valid()
      ensures queued == |queue| && unconfirmed == |store.unconfirmedTxs|
      ensures queued + unconfirmed + (if phase == Idle then 0 else 1) + |dropped| + |store.finalizedTxs| == accepted
    {
      RunsKeepInv(cfg, run);
      queued := |queue|;
      unconfirmed := store.InflightCount();
    }
  }

  lemma {:induction false} RunIsKeyed(cfg: Config, run: Run)
    requires ValidRun(cfg, run)
    ensures Keyed(Last(run).store) && Last(run).store.unconfirmed.Keys !! Last(run).store.finalized.Keys
  {
    RunsKeepInv(cfg, run);
  }

  /** Finalizing with the verdict of the chain, or leaving what cannot be resolved, is a step. */
  lemma {:induction false} ConfirmIsStep(cfg: Config, s: Sys, u: UnconfirmedTx)
    requires s.pass != [] && s.pass[0] == u
    ensures BelowReadable(u.tx.trace) ==>
              var next := MarkFinalized(s.store, u.lt, TraceSucceeds(u.tx.trace), Outcome(u.tx.trace));
              Step(cfg, Confirm(true), s, s.(pass := s.pass[1..], store := if next.Ok? then next.value else s.store))
    ensures !BelowReadable(u.tx.trace) ==> Step(cfg, Confirm(false), s, s.(pass := s.pass[1..]))
  {
  }

  lemma {:induction false} StatusOfRun(cfg: Config, run: Run, lt: nat)
    requires ValidRun(cfg, run)
    ensures var s := Last(run).store;
            && (StatusOf(s, lt).0 == Pending <==> lt in s.unconfirmed)
            && (StatusOf(s, lt).0 == Unknown <==> lt !in s.unconfirmed && lt !in s.finalized)
            && (StatusOf(s, lt).0 in {FinalizedOk, Failed} <==> lt in s.finalized)
            && (lt !in s.finalized ==> StatusOf(s, lt).1 == 0 && StatusOf(s, lt).2 == 0)
            && (lt in s.finalized ==>
                  var t := s.finalized[lt].tx.trace;
                  && t.tx.lt == lt && OnChain(t) && BelowReadable(t)
                  && (StatusOf(s, lt).0 == FinalizedOk <==> TraceSucceeds(t))
                  && StatusOf(s, lt).1 == Outcome(t) && StatusOf(s, lt).2 == ActionFeesOf(t.tx))
  {
    RunsKeepInv(cfg, run);
    StatusByRecord(Last(run).store, lt);
    if lt in Last(run).store.finalized { StatusAgreesWithChain(cfg, run, lt); }
  }

  /* ---------- schedules ---------- */

  lemma {:induction false} ContinuesOn(later: Run, middle: Run, earlier: Run)
    requires Continues(later, middle) && Continues(middle, earlier)
    ensures Continues(later, earlier)
  {
    if later == middle {
    } else {
      ContinuesOn(later.before, middle, earlier);
    }
  }

  /** The status moves forward from unknown over pending to final; a final one and its record stay. */
  ghost predicate Forward(s: Store, s': Store, lt: nat) {
    && Rank(StatusOf(s, lt).0) <= Rank(StatusOf(s', lt).0)
    && (Rank(StatusOf(s, lt).0) == 2 ==> StatusOf(s', lt) == StatusOf(s, lt))
    && (lt in s.finalized ==> lt in s'.finalized && s'.finalized[lt] == s.finalized[lt])
  }

  /** Records are only added, as unconfirmed ones. */
  ghost predicate OnlyAdds(s: Store, s': Store) {
    && s'.finalized == s.finalized
    && forall lt :: lt in s.unconfirmed ==> lt in s'.unconfirmed && s'.unconfirmed[lt] == s.unconfirmed[lt]
  }

  /* ---------- a pass ---------- */

  ghost predicate Resolvable(s: Store, lt: nat) {
    lt in s.unconfirmed && BelowReadable(s.unconfirmed[lt].tx.trace)
  }

  /** What the chain says about a transaction. */
  ghost function Verdict(tx: BroadcastTx): FinalizedTx {
    FinalizedTx(tx, Outcome(tx.trace), TraceSucceeds(tx.trace))
  }

  /** The store after the transactions in `looked`, unconfirmed in `s`, have been looked at: the resolvable
      ones are finalized with the verdict of the chain, the others are as they were, and nothing else has
      been finalized. */
  ghost predicate AfterLooking(s: Store, looked: set<nat>, s': Store) {
    && (forall lt :: lt in s.unconfirmed ==> SettledIff(s, lt in looked, s', lt))
    && (forall lt :: lt in s'.finalized ==> lt in s.finalized || (lt in looked && Resolvable(s, lt)))
    && (forall lt :: lt in s.finalized ==> lt in s'.finalized && s'.finalized[lt] == s.finalized[lt])
  }

  ghost predicate SettledIff(s: Store, looked: bool, s': Store, lt: nat)
    requires lt in s.unconfirmed
  {
    if looked && Resolvable(s, lt)
    then lt !in s'.unconfirmed && lt in s'.finalized && s'.finalized[lt] == Verdict(s.unconfirmed[lt].tx)
    else lt in s'.unconfirmed && s'.unconfirmed[lt] == s.unconfirmed[lt]
  }

  lemma {:induction false} AddingKeeps(cfg: Config, run: Run, s: Store, looked: set<nat>, now: Store)
    requires ValidRun(cfg, run) && AfterLooking(s, looked, now) && OnlyAdds(now, Last(run).store)
    ensures AfterLooking(s, looked, Last(run).store)
  {
    RunIsKeyed(cfg, run);
  }

  ghost function FirstLTs(txs: seq<UnconfirmedTx>, n: nat): set<nat>
    requires n <= |txs|
  {
    set j | 0 <= j < n :: txs[j].lt
  }

  lemma {:induction false} LookedAtNone(s: Store, txs: seq<UnconfirmedTx>)
    ensures AfterLooking(s, FirstLTs(txs, 0), s)
  {
  }

  /** Finalizing a resolvable transaction, or leaving an unresolvable one, is looking at one more. */
  lemma {:induction false} LookAtOneMore(s: Store, looked: set<nat>, now: Store, lt: nat, s': Store)
    requires AfterLooking(s, looked, now) && lt in s.unconfirmed && lt in now.unconfirmed && now.unconfirmed[lt] == s.unconfirmed[lt]
    requires var v := Verdict(s.unconfirmed[lt].tx);
             if Resolvable(s, lt) then MarkFinalized(now, lt, v.succeeded, v.exitCode) == Ok(s') else s' == now
    ensures AfterLooking(s, looked + {lt}, s')
  {
  }

  lemma {:induction false} ConfirmedStore(cfg: Config, run: Run, u: UnconfirmedTx, now: Sys)
    requires ValidRun(cfg, run) && Last(run).pass != [] && Last(run).pass[0] == u
    requires Step(cfg, Confirm(BelowReadable(u.tx.trace)), Last(run), now)
    ensures u.lt in Last(run).store.unconfirmed && Last(run).store.unconfirmed[u.lt] == u
    ensures if BelowReadable(u.tx.trace)
            then MarkFinalized(Last(run).store, u.lt, TraceSucceeds(u.tx.trace), Outcome(u.tx.trace)) == Ok(now.store)
            else now.store == Last(run).store
  {
    RunsKeepInv(cfg, run);
    FinalizeNeverFails(Last(run));
  }

  lemma {:induction false} LookedAtNext(cfg: Config, run: Run, now: Sys, before: Store, snapshot: seq<UnconfirmedTx>, n: nat)
    requires ValidRun(cfg, run) && n < |snapshot| && Last(run).pass == snapshot[n..] && IsSnapshot(before, snapshot)
    requires AfterLooking(before, FirstLTs(snapshot, n), Last(run).store)
    requires Step(cfg, Confirm(BelowReadable(snapshot[n].tx.trace)), Last(run), now)
    ensures AfterLooking(before, FirstLTs(snapshot, n + 1), now.store)
  {
    var u := snapshot[n];
    ConfirmedStore(cfg, run, u, now);
    assert FirstLTs(snapshot, n + 1) == FirstLTs(snapshot, n) + {u.lt};
    LookAtOneMore(before, FirstLTs(snapshot, n), Last(run).store, u.lt, now.store);
  }

  lemma {:induction false} SnapshotCovers(s: Store, txs: seq<UnconfirmedTx>)
    requires Keyed(s) && IsSnapshot(s, txs)
    ensures FirstLTs(txs, |txs|) == s.unconfirmed.Keys
  {
    forall lt | lt in s.unconfirmed ensures lt in FirstLTs(txs, |txs|) {
      var j :| 0 <= j < |txs| && txs[j] == s.unconfirmed[lt];
      assert txs[j].lt == lt;
    }
  }
}
