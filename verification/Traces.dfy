/** Message traces on the chain, and what a received message records of its transaction
    (`pkg/ton/tracetracking/message.go`). */
module Traces {
  import opened Prelude

  type Address = string

  datatype InternalMsg = InternalMsg(src: Address, dst: Address, createdLT: nat, amount: nat, fwdFee: nat)
  datatype InMsg = InExternal(importFee: nat) | InExternalOut | InInternal(msg: InternalMsg)
  datatype OutMsg = OutInternal(msg: InternalMsg) | OutExternal(createdAt: nat, createdLT: nat)

  /** The outgoing message dictionary: absent, unreadable, or a list. */
  datatype Outs = NoOuts | Unreadable | Outs(msgs: seq<OutMsg>)

  datatype Compute = Compute(success: bool, exitCode: int, gasFees: nat)

  /** Ordinary transactions have a compute phase (absent where it was skipped) and optional others. */
  datatype Description =
    | Ordinary(bounced: bool, compute: Option<Compute>, storageFees: Option<nat>, actionFees: Option<nat>)
    | OtherKind

  datatype Tx = Tx(lt: nat, inMsg: Option<InMsg>, totalFees: nat, description: Description, outs: Outs)

  const EXIT_CODE_SUCCESS: int := 0

  /** The internal messages that a transaction sends, in order. */
  function InternalOuts(msgs: seq<OutMsg>): seq<InternalMsg> {
    if msgs == [] then []
    else (if msgs[0].OutInternal? then [msgs[0].msg] else []) + InternalOuts(msgs[1..])
  }

  /** The external messages that a transaction sends, in order. */
  function ExternalOuts(msgs: seq<OutMsg>): seq<OutMsg> {
    if msgs == [] then []
    else (if msgs[0].OutExternal? then [msgs[0]] else []) + ExternalOuts(msgs[1..])
  }

  function Sents(tx: Tx): seq<InternalMsg> {
    if tx.outs.Outs? then InternalOuts(tx.outs.msgs) else []
  }

  /* ---------- what a received message records ---------- */

  datatype Info = Info(
    lt: nat, amount: nat, importFee: nat, fwdFee: nat, storageFee: nat, gasFee: nat, actionFees: nat, magicFee: int,
    bounced: bool, success: bool, exitCode: int)

  /** The magic fee is what remains of the total fees after all identified fees. */
  function InfoOf(tx: Tx): Info {
    var importFee := if tx.inMsg.Some? && tx.inMsg.value.InExternal? then tx.inMsg.value.importFee else 0;
    var (amount, fwdFee) :=
      if tx.inMsg.Some? && tx.inMsg.value.InInternal? then (tx.inMsg.value.msg.amount, tx.inMsg.value.msg.fwdFee) else (0, 0);
    var magicFee := tx.totalFees - importFee;
    match tx.description
    case OtherKind => Info(tx.lt, amount, importFee, fwdFee, 0, 0, 0, magicFee, false, false, 0)
    case Ordinary(bounced, compute, storageFees, actionFees) =>
      var (success, exitCode, gasFee) :=
        if compute.Some? then (compute.value.success, compute.value.exitCode, compute.value.gasFees) else (false, 0, 0);
      var storageFee := if storageFees.Some? then storageFees.value else 0;
      var action := if actionFees.Some? then actionFees.value else 0;
      Info(tx.lt, amount, importFee, fwdFee, storageFee, gasFee, action, magicFee - gasFee - storageFee - action,
           bounced, success, exitCode)
  }

  /** What the chain says about the compute phase: only an ordinary transaction whose virtual machine ran
      can have succeeded, and only such a one has an exit code other than zero. */
  predicate ComputeSucceeded(tx: Tx) {
    tx.description.Ordinary? && tx.description.compute.Some? && tx.description.compute.value.success
  }

  function ExitCodeOf(tx: Tx): int {
    if tx.description.Ordinary? && tx.description.compute.Some? then tx.description.compute.value.exitCode else 0
  }

  /** The fees of the action phase, none without one. */
  function ActionFeesOf(tx: Tx): nat {
    if tx.description.Ordinary? && tx.description.actionFees.Some? then tx.description.actionFees.value else 0
  }

  /** The message that the transaction received, if it is an internal one. */
  function ReceivedInternal(tx: Tx): Option<InternalMsg> {
    if tx.inMsg.Some? && tx.inMsg.value.InInternal? then Some(tx.inMsg.value.msg) else None
  }

  /** The record says what the chain says, field by field: absent phases and messages count as nothing, and
      the fees add up to the total fees. */
  ghost predicate Describes(i: Info, tx: Tx) {
    && i.lt == tx.lt
    && (match tx.inMsg
        case Some(InInternal(m)) => i.amount == m.amount && i.fwdFee == m.fwdFee && i.importFee == 0
        case Some(InExternal(fee)) => i.amount == 0 && i.fwdFee == 0 && i.importFee == fee
        case _ => i.amount == 0 && i.fwdFee == 0 && i.importFee == 0)
    && (i.bounced <==> tx.description.Ordinary? && tx.description.bounced)
    && (i.success <==> ComputeSucceeded(tx))
    && i.exitCode == ExitCodeOf(tx)
    && (match tx.description
        case OtherKind => i.gasFee == 0 && i.storageFee == 0 && i.actionFees == 0
        case Ordinary(_, compute, storageFees, actionFees) =>
          && (compute.None? ==> i.gasFee == 0) && (compute.Some? ==> i.gasFee == compute.value.gasFees)
          && IsFee(i.storageFee, storageFees) && IsFee(i.actionFees, actionFees))
    && i.importFee + i.storageFee + i.gasFee + i.actionFees + i.magicFee == tx.totalFees
  }

  /** Nothing if the phase is absent. */
  ghost predicate IsFee(fee: nat, phase: Option<nat>) {
    (phase.None? ==> fee == 0) && (phase.Some? ==> fee == phase.value)
  }

  /** Every field is recorded from its own place in the transaction. */
  lemma {:induction false} InfoDescribes(tx: Tx)
    ensures Describes(InfoOf(tx), tx)
  {
  }

  /** The recorded fees add up to the total fees of the transaction. */
  lemma {:induction false} FeesAddUp(tx: Tx)
    ensures var i := InfoOf(tx);
            i.importFee + i.storageFee + i.gasFee + i.actionFees + i.magicFee == tx.totalFees
  {
  }

  /* ---------- traces ---------- */

  /** A transaction with the transactions that its internal messages caused, in sending order. */
  datatype Trace = Trace(tx: Tx, children: seq<Trace>)

  ghost predicate OnChain(t: Trace) {
    && |t.children| == |Sents(t.tx)|
    && forall i :: 0 <= i < |t.children| ==>
         t.children[i].tx.inMsg == Some(InInternal(Sents(t.tx)[i])) && OnChain(t.children[i])
  }

  predicate Readable(t: Trace) {
    !t.tx.outs.Unreadable?
  }

  /** Every transaction below the root has a readable outgoing message dictionary. */
  ghost predicate BelowReadable(t: Trace) {
    forall i :: 0 <= i < |t.children| ==> Readable(t.children[i]) && BelowReadable(t.children[i])
  }

  ghost function Size(t: Trace): nat {
    1 + Sizes(t.children)
  }

  ghost function Sizes(ts: seq<Trace>): nat {
    if ts == [] then 0 else Size(ts[0]) + Sizes(ts[1..])
  }

  lemma {:induction false} SizesSplit(a: seq<Trace>, b: seq<Trace>)
    ensures Sizes(a + b) == Sizes(a) + Sizes(b)
  {
    if a == [] {
      assert a + b == b;
    } else {
      assert (a + b)[1..] == a[1..] + b;
      SizesSplit(a[1..], b);
    }
  }

  /* ---------- subscriptions ---------- */

  /** The transactions that a subscription to an account after a logical time yields, in order. */
  type Network = (Address, nat) -> seq<Tx>

  predicate MatchesReceived(sent: InternalMsg, incoming: InternalMsg) {
    incoming.src == sent.src && incoming.dst == sent.dst && incoming.createdLT == sent.createdLT
  }

  predicate Receives(tx: Tx, sent: InternalMsg) {
    tx.inMsg.Some? && tx.inMsg.value.InInternal? && MatchesReceived(sent, tx.inMsg.value.msg)
  }

  /** A message is received once: its source, its destination and the logical time at which it was created
      tell it from all others. */
  ghost predicate ReceivedOnce(stream: seq<Tx>) {
    forall i, j :: 0 <= i < |stream| && 0 <= j < |stream| && ReceiveTheSame(stream[i], stream[j]) ==> stream[i] == stream[j]
  }

  ghost predicate ReceiveTheSame(a: Tx, b: Tx) {
    && ReceivedInternal(a).Some? && ReceivedInternal(b).Some?
    && ReceivedInternal(a).value.src == ReceivedInternal(b).value.src
    && ReceivedInternal(a).value.dst == ReceivedInternal(b).value.dst
    && ReceivedInternal(a).value.createdLT == ReceivedInternal(b).value.createdLT
  }

  /** The stream holds the transaction, perhaps after others. */
  ghost predicate Yields(stream: seq<Tx>, tx: Tx) {
    tx in stream && ReceivedOnce(stream)
  }

  /** Every message is matched by the transaction that it caused, and by no transaction that another message
      of the same sender caused. */
  lemma {:induction false} MatchedToOwnChild(t: Trace, i: nat, j: nat)
    requires OnChain(t) && i < |t.children| && j < |t.children|
    ensures Receives(t.children[i].tx, Sents(t.tx)[i])
    ensures Sents(t.tx)[i].createdLT != Sents(t.tx)[j].createdLT ==> !Receives(t.children[i].tx, Sents(t.tx)[j])
  {
  }

  /** Every subscription of the trace eventually yields the transaction of the trace. */
  ghost predicate Delivers(net: Network, t: Trace)
    requires OnChain(t)
  {
    forall i :: 0 <= i < |t.children| ==>
      && Yields(net(Sents(t.tx)[i].dst, t.tx.lt), t.children[i].tx)
      && Delivers(net, t.children[i])
  }

  /* ---------- outcomes ---------- */

  predicate Succeeded(t: Trace) {
    ComputeSucceeded(t.tx)
  }

  /** The node, then its subtrees from first to last. */
  function Preorder(t: Trace): seq<Trace>
    decreases t, 0
  {
    [t] + PreorderAll(t.children)
  }

  function PreorderAll(ts: seq<Trace>): seq<Trace>
    decreases ts
  {
    if ts == [] then [] else Preorder(ts[0]) + PreorderAll(ts[1..])
  }

  lemma {:induction false} PreorderAllSplit(a: seq<Trace>, b: seq<Trace>)
    ensures PreorderAll(a + b) == PreorderAll(a) + PreorderAll(b)
  {
    if a == [] {
      assert a + b == b;
    } else {
      assert (a + b)[1..] == a[1..] + b;
      PreorderAllSplit(a[1..], b);
    }
  }

  ghost predicate TraceSucceeds(t: Trace) {
    forall n :: n in Preorder(t) ==> Succeeded(n)
  }

  /** The exit code of the first failing node of a list, success if none fails. */
  function FirstExit(ts: seq<Trace>): int {
    if ts == [] then EXIT_CODE_SUCCESS
    else if !Succeeded(ts[0]) then ExitCodeOf(ts[0].tx)
    else FirstExit(ts[1..])
  }

  function Outcome(t: Trace): int {
    FirstExit(Preorder(t))
  }

  /** Where the first failure of a list is. */
  ghost predicate FirstFailureAt(ts: seq<Trace>, i: int) {
    0 <= i < |ts| && !Succeeded(ts[i]) && forall j :: 0 <= j < i ==> Succeeded(ts[j])
  }

  lemma {:induction false} FirstExitIsFirstFailure(ts: seq<Trace>)
    ensures forall i :: FirstFailureAt(ts, i) ==> FirstExit(ts) == ExitCodeOf(ts[i].tx)
    ensures (exists i :: FirstFailureAt(ts, i)) <==> exists n :: n in ts && !Succeeded(n)
    ensures (forall n :: n in ts ==> Succeeded(n)) ==> FirstExit(ts) == EXIT_CODE_SUCCESS
  {
    if ts == [] {
    } else {
      var rest := ts[1..];
      FirstExitIsFirstFailure(rest);
      if Succeeded(ts[0]) {
        forall i | FirstFailureAt(ts, i) ensures FirstExit(ts) == ExitCodeOf(ts[i].tx) {
          assert FirstFailureAt(rest, i - 1) by {
            assert forall j :: 0 <= j < i - 1 ==> rest[j] == ts[j + 1];
          }
        }
        if n :| n in ts && !Succeeded(n) {
          assert n in rest;
          var i :| FirstFailureAt(rest, i);
          assert FirstFailureAt(ts, i + 1) by {
            assert forall j :: 1 <= j < i + 1 ==> ts[j] == rest[j - 1];
          }
        }
      } else {
        assert FirstFailureAt(ts, 0);
        assert ts[0] in ts;
      }
    }
  }

  /** The first failure carries the exit code of success. */
  ghost predicate FailsWithSuccessCode(ts: seq<Trace>) {
    exists i :: FirstFailureAt(ts, i) && ExitCodeOf(ts[i].tx) == EXIT_CODE_SUCCESS
  }

  /** The reported exit code and the reported success agree, except that a failing node may itself
      carry the code of success: the code says success exactly when the whole trace succeeded or its
      first failure has that code. */
  lemma {:induction false} OutcomeAgrees(t: Trace)
    ensures Outcome(t) == EXIT_CODE_SUCCESS <==> TraceSucceeds(t) || FailsWithSuccessCode(Preorder(t))
  {
    var ts := Preorder(t);
    FirstExitIsFirstFailure(ts);
    if !TraceSucceeds(t) {
      var i :| FirstFailureAt(ts, i);
      assert Outcome(t) == ExitCodeOf(ts[i].tx);
      if j :| FirstFailureAt(ts, j) && ExitCodeOf(ts[j].tx) == EXIT_CODE_SUCCESS {
        assert Outcome(t) == ExitCodeOf(ts[j].tx);
      }
    }
  }

  /** Such a failure exists: a skipped compute phase fails with exit code zero. */
  lemma {:induction false} SkippedComputeFailsWithZero()
    ensures exists t :: OnChain(t) && !TraceSucceeds(t) && Outcome(t) == EXIT_CODE_SUCCESS
  {
    var tx := Tx(1, Some(InExternal(0)), 0, Ordinary(false, None, None, None), NoOuts);
    var t := Trace(tx, []);
    assert Preorder(t) == [t];
    assert t in Preorder(t) && !Succeeded(t);
    assert Outcome(t) == EXIT_CODE_SUCCESS && OnChain(t);
  }
}
