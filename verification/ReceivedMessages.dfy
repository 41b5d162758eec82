/** Received messages as objects that the tracker updates in place
    (`pkg/ton/tracetracking/message.go`): resolving a trace breadth first, and reading off its
    outcome depth first. */
module ReceivedMessages {
  import opened Prelude
  import opened Traces

  /** An arbitrary-precision integer behind a pointer: copies of a message share it. */
  class BigInt {
    var v: int

    constructor (v: int)
      ensures this.v == v
    {
      this.v := v;
    }
  }

  function SumAmounts(msgs: seq<InternalMsg>): nat {
    if msgs == [] then 0 else msgs[0].amount + SumAmounts(msgs[1..])
  }

  function SumFwdFees(msgs: seq<InternalMsg>): nat {
    if msgs == [] then 0 else msgs[0].fwdFee + SumFwdFees(msgs[1..])
  }

  datatype MsgStatus = Received | Cascading | Finalized

  class ReceivedMessage {
    /** The transaction that received the message, and what is recorded of it. */
    const tx: Tx
    const info: Info := InfoOf(tx)
    const totalActionFees: BigInt
    /** Internal messages sent and not yet seen received, oldest first. */
    var sent: seq<InternalMsg>
    /** Messages received from them, in the same order. */
    var received: seq<ReceivedMessage>
    /** Events: external messages sent. */
    var external: seq<OutMsg>
    var msgFeesChargedToSender: nat
    /** The on-chain trace that this message is the root of. */
    ghost const trace: Trace

    /** `MapToReceivedMessage`, once the outgoing message dictionary has been read. */
    constructor Map(ghost trace: Trace, tx: Tx)
      requires OnChain(trace) && tx == trace.tx
      ensures this.trace == trace && Fresh() && totalActionFees.v == info.actionFees && fresh(totalActionFees)
      ensures Describes(info, tx)
      ensures msgFeesChargedToSender == SumFwdFees(sent)
      ensures external == if tx.outs.Outs? then ExternalOuts(tx.outs.msgs) else []
    {
      this.tx := tx;
      totalActionFees := new BigInt(InfoOf(tx).actionFees);
      sent, received, external, msgFeesChargedToSender := [], [], [], 0;
      this.trace := trace;
      InfoDescribes(tx);
      new;
      if tx.outs.Outs? { MapOutgoingMessages(tx.outs.msgs); }
    }

    /** Internal messages join the sent ones and their forward fees are added up; external ones are events. */
    method MapOutgoingMessages(msgs: seq<OutMsg>)
      requires sent == [] && external == [] && msgFeesChargedToSender == 0
      modifies this`sent, this`external, this`msgFeesChargedToSender
      ensures sent == InternalOuts(msgs) && msgFeesChargedToSender == SumFwdFees(sent)
      ensures external == ExternalOuts(msgs)
    {
      for i := 0 to |msgs|
        invariant sent == InternalOuts(msgs[..i]) && msgFeesChargedToSender == SumFwdFees(sent)
        invariant external == ExternalOuts(msgs[..i])
      {
        InternalOutsSnoc(msgs, i);
        match msgs[i] {
          case OutInternal(m) =>
            SumsSplit(sent, [m]);
            sent := sent + [m];
            msgFeesChargedToSender := msgFeesChargedToSender + m.fwdFee;
          case OutExternal(_, _) =>
            external := external + [msgs[i]];
        }
      }
      assert msgs[..|msgs|] == msgs;
    }

    /** A struct copy: same lists, same fee pointer. */
    constructor Copy(m: ReceivedMessage)
      ensures trace == m.trace && tx == m.tx && totalActionFees == m.totalActionFees
      ensures sent == m.sent && received == m.received
      ensures external == m.external && msgFeesChargedToSender == m.msgFeesChargedToSender
    {
      tx, totalActionFees, sent, received := m.tx, m.totalActionFees, m.sent, m.received;
      external, msgFeesChargedToSender := m.external, m.msgFeesChargedToSender;
      trace := m.trace;
    }

    /** The message reflects its transaction, and the received messages are a prefix of the trace's
        children while the sent ones are the rest. */
    ghost predicate Tracks()
      reads this
    {
      && OnChain(trace) && tx == trace.tx
      && |received| <= |trace.children|
      && sent == Sents(trace.tx)[|received|..]
      && forall i :: 0 <= i < |received| ==>
           received[i].trace == trace.children[i] && received[i].tx == trace.children[i].tx
    }

    /** As the transaction was mapped: everything sent, nothing received. */
    ghost predicate Untouched()
      reads this
    {
      tx == trace.tx && sent == Sents(trace.tx) && received == []
    }

    ghost predicate Fresh()
      reads this
    {
      OnChain(trace) && Untouched()
    }

    ghost predicate Done()
      reads this
    {
      Tracks() && sent == []
    }

    function Status(): MsgStatus
      reads this
    {
      if |sent| == 0 then Finalized else if |received| != 0 then Cascading else Received
    }

    /** Finalized once every message that the transaction caused has been received, received while none
        has, and cascading in between. */
    lemma {:induction false} StatusTellsProgress()
      requires Tracks()
      ensures Status() == Finalized <==> |received| == |trace.children|
      ensures Status() == Received <==> 0 == |received| < |trace.children|
      ensures Status() == Cascading <==> 0 < |received| < |trace.children|
    {
      assert |sent| == |trace.children| - |received|;
    }

    /* ---------- sums ---------- */

    /** The received messages carry the amounts and fees that were sent. */
    lemma {:induction false} ReceivedAreSent()
      requires Tracks()
      ensures |received| <= |Sents(trace.tx)| && sent == Sents(trace.tx)[|received|..]
      ensures forall i :: 0 <= i < |received| ==>
                received[i].info.amount == Sents(trace.tx)[i].amount && received[i].info.fwdFee == Sents(trace.tx)[i].fwdFee
    {
    }

    method OutgoingAmount() returns (total: int)
      requires Tracks()
      ensures total == SumAmounts(Sents(trace.tx))
    {
      ghost var all := Sents(trace.tx);
      ReceivedAreSent();
      total := 0;
      for i := 0 to |sent|
        invariant total == SumAmounts(sent[..i])
      {
        SumsTake(sent, i);
        total := total + sent[i].amount;
      }
      SumsWhole(all, |received|);
      for i := 0 to |received|
        invariant total == SumAmounts(sent) + SumAmounts(all[..i])
      {
        SumsTake(all, i);
        total := total + received[i].info.amount;
      }
    }

    method NetCreditResult() returns (net: int)
      requires Tracks()
      ensures net == info.amount - SumAmounts(Sents(trace.tx))
    {
      var out := OutgoingAmount();
      net := info.amount - out;
    }

    /** The sum is accumulated in place, in the very integer that holds the base fees. */
    method TotalActionPhaseFees() returns (total: BigInt)
      requires Tracks()
      modifies totalActionFees
      ensures total == totalActionFees
      ensures totalActionFees.v == old(totalActionFees.v) + SumFwdFees(Sents(trace.tx))
    {
      ghost var all := Sents(trace.tx);
      ReceivedAreSent();
      total := totalActionFees;
      for i := 0 to |sent|
        invariant total.v == old(totalActionFees.v) + SumFwdFees(sent[..i])
      {
        SumsTake(sent, i);
        total.v := total.v + sent[i].fwdFee;
      }
      SumsWhole(all, |received|);
      for i := 0 to |received|
        invariant total.v == old(totalActionFees.v) + SumFwdFees(sent) + SumFwdFees(all[..i])
      {
        SumsTake(all, i);
        total.v := total.v + received[i].info.fwdFee;
      }
    }

    /** With the storage fee, the first call gives the total fees and all forward fees; every further
        call adds the forward fees once more. */
    method TotalTransactionExecutionFee() returns (fee: int)
      requires Tracks()
      modifies totalActionFees
      ensures totalActionFees.v == old(totalActionFees.v) + SumFwdFees(Sents(trace.tx))
      ensures info.storageFee + fee ==
              trace.tx.totalFees + SumFwdFees(Sents(trace.tx)) + (old(totalActionFees.v) - info.actionFees)
    {
      var action := TotalActionPhaseFees();
      fee := info.importFee + info.gasFee + action.v + info.magicFee;
      FeesAddUp(trace.tx);
    }

    /* ---------- resolving a trace ---------- */

    /** Waits for the reception of one sent message: the first transaction of the subscription that
        matches it. */
    method AwaitReception(net: Network, msg: InternalMsg, ghost child: Trace) returns (r: Result<ReceivedMessage>)
      requires OnChain(child) && child.tx.inMsg == Some(InInternal(msg)) && Yields(net(msg.dst, info.lt), child.tx)
      ensures r.Ok? <==> Readable(child)
      ensures r.Ok? ==> fresh(r.value) && r.value.trace == child && r.value.Untouched()
    {
      var stream := net(msg.dst, info.lt);
      ghost var k :| 0 <= k < |stream| && stream[k] == child.tx;
      var i := 0;
      while i < |stream| && !Receives(stream[i], msg)
        invariant 0 <= i <= k
      {
        i := i + 1;
      }
      var tx := stream[i];
      assert ReceiveTheSame(stream[i], stream[k]);
      if tx.outs.Unreadable? { return Err; }
      var m := new ReceivedMessage.Map(child, tx);
      r := Ok(m);
    }

    lemma {:induction false} FreshTracks()
      requires Fresh()
      ensures Tracks()
    {
      assert Sents(trace.tx)[0..] == Sents(trace.tx);
    }

    lemma {:induction false} NextSent(net: Network)
      requires Tracks() && sent != [] && Delivers(net, trace)
      ensures |received| < |trace.children| && OnChain(trace.children[|received|])
      ensures sent[0] == Sents(trace.tx)[|received|] && sent[1..] == Sents(trace.tx)[|received| + 1..]
      ensures trace.children[|received|].tx.inMsg == Some(InInternal(sent[0]))
      ensures Yields(net(sent[0].dst, info.lt), trace.children[|received|].tx)
    {
      InfoDescribes(tx);
    }

    /** The next child of the trace joins the received messages. */
    lemma {:induction false} TracksOneMore(before: seq<ReceivedMessage>, m: ReceivedMessage)
      requires OnChain(trace) && tx == trace.tx && |before| < |trace.children|
      requires forall i :: 0 <= i < |before| ==> before[i].trace == trace.children[i] && before[i].tx == trace.children[i].tx
      requires m.trace == trace.children[|before|] && m.tx == m.trace.tx
      requires received == before + [m] && sent == Sents(trace.tx)[|before| + 1..]
      ensures Tracks()
    {
    }

    /** One turn of the loop: the first sent message is taken out and joins the received ones. */
    method ReceiveNext(net: Network) returns (r: Result<ReceivedMessage>)
      requires Tracks() && sent != [] && Delivers(net, trace) && Newborn(received) && this !in received
      modifies this
      ensures |old(received)| < |trace.children| && (r.Ok? <==> Readable(trace.children[|old(received)|]))
      ensures r.Ok? ==> fresh(r.value) && received == old(received) + [r.value]
      ensures r.Ok? ==> Tracks() && |sent| == |old(sent)| - 1
      ensures r.Err? ==> received == old(received)
      ensures Newborn(received)
    {
      NextSent(net);
      var msg := sent[0];
      ghost var child, before := trace.children[|received|], received;
      sent := sent[1..];
      r := AwaitReception(net, msg, child);
      if r.Err? { return; }
      received := received + [r.value];
      TracksOneMore(before, r.value);
    }

    /** Moves every sent message to the received ones, one by one. */
    method WaitForOutgoingMessagesToBeReceived(net: Network) returns (ok: bool)
      requires Fresh() && Delivers(net, trace)
      modifies this
      ensures ok <==> FirstReadable(trace.children, |trace.children|)
      ensures ok ==> Done()
      ensures Newborn(received) && forall m :: m in received ==> fresh(m)
    {
      FreshTracks();
      while |sent| != 0
        invariant Tracks() && Newborn(received) && forall m :: m in received ==> fresh(m)
        invariant FirstReadable(trace.children, |received|)
        decreases |sent|
      {
        ghost var n := |received|;
        var m := ReceiveNext(net);
        if m.Err? {
          assert !Readable(trace.children[n]);
          return false;
        }
      }
      assert |received| == |trace.children|;
      ok := true;
    }

    /** Breadth first over all messages with unconfirmed outgoing messages. On success every message
        of the trace has been rebuilt, in `nodes`, and none is left with a pending sent message. */
    method WaitForTrace(net: Network) returns (ok: bool, ghost nodes: set<ReceivedMessage>)
      requires Fresh() && Delivers(net, trace)
      modifies this
      ensures ok <==> BelowReadable(trace)
      ensures this in nodes && forall n :: n in nodes ==> n == this || fresh(n)
      ensures ok ==> Resolved(nodes)
    {
      nodes := {this};
      if Status() == Finalized { return true, nodes; }
      var queue := [this];
      assert Traced(queue) == [trace];
      assert Ready(net);
      while |queue| != 0
        invariant this in nodes && forall n :: n in nodes ==> n == this || fresh(n)
        invariant Frontier(net, queue, nodes)
        invariant BelowReadable(trace) <==> AllBelowReadable(Traced(queue))
        decreases Sizes(Traced(queue))
      {
        ExpandStep(queue);
        assert queue[0] in queue && queue[0] in nodes;
        ghost var before := nodes;
        ok, queue, nodes := ResolveFirst(net, queue, nodes);
        forall n | n in nodes ensures n == this || fresh(n) {
          if n !in before { assert n in nodes - before; }
        }
        if !ok { return false, nodes; }
      }
      ok := true;
    }

    /** One turn of the loop: resolves the first message of the queue and queues what it received. */
    static method ResolveFirst(net: Network, queue: seq<ReceivedMessage>, ghost nodes: set<ReceivedMessage>)
      returns (ok: bool, next: seq<ReceivedMessage>, ghost grown: set<ReceivedMessage>)
      requires queue != [] && Frontier(net, queue, nodes)
      modifies queue[0]
      ensures nodes <= grown && forall n :: n in grown - nodes ==> fresh(n)
      ensures ok <==> forall i :: 0 <= i < |queue[0].trace.children| ==> Readable(queue[0].trace.children[i])
      ensures ok ==> Frontier(net, next, grown) && Traced(next) == Traced(queue[1..]) + queue[0].trace.children
    {
      var m, rest := queue[0], queue[1..];
      assert queue == [m] + rest;
      assert m in queue && m.Ready(net);
      next, grown := rest, nodes;
      ok := m.WaitForOutgoingMessagesToBeReceived(net);
      if !ok { return; }
      MovedIntoQueue(m, rest);
      grown := nodes + set c | c in m.received;
      next := rest + m.received;
      forall q | q in next ensures q in grown && q.Ready(net) {
        if q in rest {
          assert q in queue && q != m;
        } else {
          var i :| 0 <= i < |m.received| && m.received[i] == q;
          assert q.trace == m.trace.children[i];
        }
      }
      forall n | n in grown && n !in next ensures n.Settled(grown) {
        if n != m { assert n in nodes && n !in queue && n.Settled(nodes); }
      }
      forall i, j | 0 <= i < j < |next| ensures next[i] != next[j] {
        if i < |rest| {
          assert next[i] == queue[i + 1] && next[i] in nodes;
          if j < |rest| { assert next[j] == queue[j + 1]; }
        }
      }
    }

    /** Nothing received yet, and the network delivers the whole trace. */
    ghost predicate Ready(net: Network)
      reads this
    {
      Fresh() && Delivers(net, trace)
    }

    /** Nothing is pending, and the received messages are known. */
    ghost predicate Settled(nodes: set<ReceivedMessage>)
      reads this
    {
      Done() && forall c :: c in received ==> c in nodes
    }

    /* ---------- outcome ---------- */

    /** Depth first with an explicit stack, children pushed from last to first. */
    method OutcomeExitCode(ghost nodes: set<ReceivedMessage>) returns (code: int)
      requires this in nodes && Resolved(nodes)
      ensures code == Outcome(trace)
    {
      var stack: seq<ReceivedMessage> := [this];
      assert FromTop(stack) == [trace];
      PreorderAllOne(trace);
      while |stack| > 0
        invariant forall m :: m in stack ==> m in nodes
        invariant FirstExit(PreorderAll(FromTop(stack))) == Outcome(trace)
        decreases Sizes(FromTop(stack))
      {
        var exit;
        exit, stack := VisitTop(stack, nodes);
        if exit.Some? { return exit.value; }
      }
      code := EXIT_CODE_SUCCESS;
    }

    /** One turn of the loop: the top of the stack fails, or is replaced by its children. */
    static method VisitTop(stack: seq<ReceivedMessage>, ghost nodes: set<ReceivedMessage>)
      returns (exit: Option<int>, next: seq<ReceivedMessage>)
      requires stack != [] && Resolved(nodes) && forall m :: m in stack ==> m in nodes
      ensures exit.Some? ==> exit.value == FirstExit(PreorderAll(FromTop(stack)))
      ensures exit.None? ==>
                && FirstExit(PreorderAll(FromTop(next))) == FirstExit(PreorderAll(FromTop(stack)))
                && Sizes(FromTop(next)) < Sizes(FromTop(stack))
                && forall m :: m in next ==> m in nodes
    {
      var n := |stack| - 1;
      var curr := stack[n];
      assert curr.Settled(nodes);
      next := stack[..n];
      PopStep(curr.trace, FromTop(next));
      InfoDescribes(curr.tx);
      if !curr.info.success { return Some(curr.info.exitCode), next; }
      assert Traced(curr.received) == curr.trace.children;
      next := PushReversed(next, curr.received);
      exit := None;
    }

    /** Pushes from last to first, so that the first message ends up on top. */
    static method PushReversed(stack: seq<ReceivedMessage>, ms: seq<ReceivedMessage>) returns (r: seq<ReceivedMessage>)
      ensures FromTop(r) == Traced(ms) + FromTop(stack)
      ensures forall m :: m in r ==> m in stack || m in ms
    {
      r := stack;
      assert Traced([]) == [];
      assert ms[|ms|..] == [];
      var i := |ms| - 1;
      while i >= 0
        invariant -1 <= i < |ms|
        invariant forall m :: m in r ==> m in stack || m in ms
        invariant FromTop(r) == Traced(ms[i + 1..]) + FromTop(stack)
      {
        r := r + [ms[i]];
        assert r[..|r| - 1] + [ms[i]] == r;
        assert Traced(ms[i..]) == [ms[i].trace] + Traced(ms[i + 1..]);
        i := i - 1;
      }
      assert ms[0..] == ms;
    }

    /** The recursive check. */
    function TraceSucceeded(ghost nodes: set<ReceivedMessage>): (b: bool)
      requires this in nodes && Resolved(nodes)
      reads nodes
      ensures b <==> TraceSucceeds(trace)
      decreases trace, 1
    {
      SucceedsIff(trace);
      InfoDescribes(tx);
      info.success && AllSucceeded(received, nodes, trace)
    }

    static function AllSucceeded(ms: seq<ReceivedMessage>, ghost nodes: set<ReceivedMessage>, ghost parent: Trace): (b: bool)
      requires Resolved(nodes) && forall m :: m in ms ==> m in nodes && m.trace < parent
      reads nodes
      ensures b <==> forall m :: m in ms ==> TraceSucceeds(m.trace)
      decreases parent, 0, |ms|
    {
      ms == [] || (ms[0].TraceSucceeded(nodes) && AllSucceeded(ms[1..], nodes, parent))
    }
  }

  /* ---------- sums of messages ---------- */

  lemma {:induction false} SumsSplit(a: seq<InternalMsg>, b: seq<InternalMsg>)
    ensures SumAmounts(a + b) == SumAmounts(a) + SumAmounts(b)
    ensures SumFwdFees(a + b) == SumFwdFees(a) + SumFwdFees(b)
  {
    if a == [] {
      assert a + b == b;
    } else {
      assert (a + b)[1..] == a[1..] + b;
      SumsSplit(a[1..], b);
    }
  }

  lemma {:induction false} InternalOutsSnoc(msgs: seq<OutMsg>, i: nat)
    requires i < |msgs|
    ensures InternalOuts(msgs[..i + 1]) ==
            InternalOuts(msgs[..i]) + if msgs[i].OutInternal? then [msgs[i].msg] else []
    ensures ExternalOuts(msgs[..i + 1]) == ExternalOuts(msgs[..i]) + if msgs[i].OutExternal? then [msgs[i]] else []
  {
    SliceSnoc(msgs, 0, i);
    InternalOutsSplit(msgs[..i], msgs[i]);
    ExternalOutsSplit(msgs[..i], msgs[i]);
  }

  lemma {:induction false} ExternalOutsSplit(a: seq<OutMsg>, m: OutMsg)
    ensures ExternalOuts(a + [m]) == ExternalOuts(a) + if m.OutExternal? then [m] else []
  {
    if a == [] {
      assert [m][1..] == [];
      assert a + [m] == [m];
    } else {
      ConcatTail(a, [m]);
      ExternalOutsSplit(a[1..], m);
      var first := if a[0].OutExternal? then [a[0]] else [];
      ConcatIsAssociative(first, ExternalOuts(a[1..]), if m.OutExternal? then [m] else []);
    }
  }

  lemma {:induction false} InternalOutsSplit(a: seq<OutMsg>, m: OutMsg)
    ensures InternalOuts(a + [m]) == InternalOuts(a) + if m.OutInternal? then [m.msg] else []
  {
    if a == [] {
      assert [m][1..] == [];
      assert a + [m] == [m];
    } else {
      ConcatTail(a, [m]);
      InternalOutsSplit(a[1..], m);
      var first := if a[0].OutInternal? then [a[0].msg] else [];
      ConcatIsAssociative(first, InternalOuts(a[1..]), if m.OutInternal? then [m.msg] else []);
    }
  }

  lemma {:induction false} SumsTake(msgs: seq<InternalMsg>, i: nat)
    requires i < |msgs|
    ensures SumAmounts(msgs[..i + 1]) == SumAmounts(msgs[..i]) + msgs[i].amount
    ensures SumFwdFees(msgs[..i + 1]) == SumFwdFees(msgs[..i]) + msgs[i].fwdFee
  {
    assert msgs[..i + 1] == msgs[..i] + [msgs[i]];
    SumsSplit(msgs[..i], [msgs[i]]);
  }

  lemma {:induction false} SumsWhole(msgs: seq<InternalMsg>, i: nat)
    requires i <= |msgs|
    ensures SumAmounts(msgs) == SumAmounts(msgs[..i]) + SumAmounts(msgs[i..])
    ensures SumFwdFees(msgs) == SumFwdFees(msgs[..i]) + SumFwdFees(msgs[i..])
    ensures msgs[i..][..|msgs| - i] == msgs[i..]
  {
    assert msgs == msgs[..i] + msgs[i..];
    SumsSplit(msgs[..i], msgs[i..]);
  }

  /* ---------- sets and lists of messages ---------- */

  /** A closed set of messages without any pending sent message. */
  ghost predicate Resolved(nodes: set<ReceivedMessage>)
    reads nodes
  {
    forall n :: n in nodes ==> n.Settled(nodes)
  }

  /** The queue of a breadth-first search over `nodes`: distinct untouched messages; all others are settled. */
  ghost predicate Frontier(net: Network, queue: seq<ReceivedMessage>, nodes: set<ReceivedMessage>)
    reads nodes
  {
    && (forall i, j :: 0 <= i < j < |queue| ==> queue[i] != queue[j])
    && (forall m :: m in queue ==> m in nodes && m.Ready(net))
    && (forall n :: n in nodes && n !in queue ==> n.Settled(nodes))
  }

  /** Distinct untouched messages. */
  ghost predicate Newborn(ms: seq<ReceivedMessage>)
    reads ms
  {
    && (forall m :: m in ms ==> m.Untouched())
    && (forall i, j :: 0 <= i < j < |ms| ==> ms[i] != ms[j])
  }

  ghost function Traced(ms: seq<ReceivedMessage>): seq<Trace> {
    seq(|ms|, i requires 0 <= i < |ms| => ms[i].trace)
  }

  /** The traces of a stack, from its top to its bottom. */
  ghost function FromTop(stack: seq<ReceivedMessage>): seq<Trace> {
    if stack == [] then [] else [stack[|stack| - 1].trace] + FromTop(stack[..|stack| - 1])
  }

  lemma {:induction false} TracedSplit(a: seq<ReceivedMessage>, b: seq<ReceivedMessage>)
    ensures Traced(a + b) == Traced(a) + Traced(b)
  {
  }

  ghost predicate FirstReadable(ts: seq<Trace>, n: nat) {
    n <= |ts| && forall i :: 0 <= i < n ==> Readable(ts[i])
  }

  ghost predicate AllBelowReadable(ts: seq<Trace>) {
    forall t :: t in ts ==> BelowReadable(t)
  }

  /** Replacing the first message of the queue by its children shrinks what is left to visit, and keeps
      what is left to read, provided that the children themselves can be read. */
  lemma {:induction false} ExpandStep(queue: seq<ReceivedMessage>)
    requires queue != []
    ensures var t, rest := queue[0].trace, Traced(queue[1..]);
            && Sizes(rest + t.children) < Sizes(Traced(queue))
            && (AllBelowReadable(Traced(queue)) <==>
                  AllBelowReadable(rest + t.children) && forall i :: 0 <= i < |t.children| ==> Readable(t.children[i]))
  {
    var t, rest := queue[0].trace, Traced(queue[1..]);
    assert Traced(queue) == [t] + rest;
    assert ([t] + rest)[1..] == rest;
    SizesSplit(rest, t.children);
    if AllBelowReadable([t] + rest) {
      assert BelowReadable(t);
      assert forall u :: u in rest ==> u in [t] + rest;
    }
    if AllBelowReadable(rest + t.children) && forall i :: 0 <= i < |t.children| ==> Readable(t.children[i]) {
      assert forall i :: 0 <= i < |t.children| ==> t.children[i] in rest + t.children;
      assert BelowReadable(t);
      assert forall u :: u in rest ==> u in rest + t.children;
    }
  }

  lemma {:induction false} MovedIntoQueue(m: ReceivedMessage, rest: seq<ReceivedMessage>)
    requires m.Done()
    ensures Traced(rest + m.received) == Traced(rest) + m.trace.children
  {
    TracedSplit(rest, m.received);
    assert Traced(m.received) == m.trace.children;
  }

  lemma {:induction false} PreorderAllOne(t: Trace)
    ensures PreorderAll([t]) == Preorder(t)
  {
    assert [t][1..] == [];
    assert Preorder(t) + [] == Preorder(t);
  }

  /** Popping a node replaces it by its children. */
  lemma {:induction false} PopStep(t: Trace, rest: seq<Trace>)
    ensures Sizes(t.children + rest) + 1 == Sizes([t] + rest)
    ensures FirstExit(PreorderAll([t] + rest)) ==
            if Succeeded(t) then FirstExit(PreorderAll(t.children + rest)) else ExitCodeOf(t.tx)
  {
    assert ([t] + rest)[1..] == rest;
    SizesSplit(t.children, rest);
    PreorderAllSplit(t.children, rest);
    var tail := PreorderAll(t.children) + PreorderAll(rest);
    assert PreorderAll([t] + rest) == [t] + tail;
    assert ([t] + tail)[1..] == tail;
  }

  lemma {:induction false} SucceedsIff(t: Trace)
    ensures TraceSucceeds(t) <==> Succeeded(t) && forall c :: c in t.children ==> TraceSucceeds(c)
  {
    PreorderAllMembers(t.children);
    assert forall n :: n in Preorder(t) <==> n == t || n in PreorderAll(t.children);
    if TraceSucceeds(t) {
      assert t in Preorder(t);
      forall c, n | c in t.children && n in Preorder(c) ensures Succeeded(n) {
        assert n in PreorderAll(t.children);
      }
    }
  }

  lemma {:induction false} PreorderAllMembers(ts: seq<Trace>)
    ensures forall n :: n in PreorderAll(ts) <==> exists c :: c in ts && n in Preorder(c)
  {
    if ts == [] {
    } else {
      PreorderAllMembers(ts[1..]);
      forall n ensures n in PreorderAll(ts) <==> exists c :: c in ts && n in Preorder(c) {
        if n in PreorderAll(ts) && n !in Preorder(ts[0]) {
          assert n in PreorderAll(ts[1..]);
          var c :| c in ts[1..] && n in Preorder(c);
          assert c in ts;
        }
        if c :| c in ts && n in Preorder(c) {
          assert c == ts[0] || c in ts[1..];
        }
      }
    }
  }

  /* ---------- the rebuilt tree is the trace ---------- */

  /** The message with all messages below it is the trace: same shape, every message says of its
      transaction what the chain says, and nothing is pending. */
  ghost predicate Mirrors(m: ReceivedMessage, t: Trace, nodes: set<ReceivedMessage>)
    requires m in nodes && Resolved(nodes)
    reads nodes
    decreases t
  {
    && Describes(m.info, t.tx)
    && m.sent == [] && |m.received| == |t.children|
    && forall i :: 0 <= i < |t.children| ==> m.received[i] in nodes && Mirrors(m.received[i], t.children[i], nodes)
  }

  /** The rebuilt objects are the trace. */
  lemma {:induction false} RebuiltIsTrace(m: ReceivedMessage, nodes: set<ReceivedMessage>)
    requires m in nodes && Resolved(nodes)
    ensures Mirrors(m, m.trace, nodes)
    decreases m.trace
  {
    InfoDescribes(m.tx);
    forall i | 0 <= i < |m.trace.children| ensures m.received[i] in nodes && Mirrors(m.received[i], m.trace.children[i], nodes) {
      assert m.received[i] in m.received;
      RebuiltIsTrace(m.received[i], nodes);
    }
  }

  /** The confirmation of one transaction: works on a copy of its received message, which stays as it
      was, and reports whether the whole trace succeeded and with which exit code. */
  method ConfirmOnCopy(original: ReceivedMessage, net: Network) returns (r: Option<(bool, int)>)
    requires original.Fresh() && Delivers(net, original.trace)
    ensures r.Some? <==> BelowReadable(original.trace)
    ensures r.Some? ==> r.value.1 == Outcome(original.trace) && (r.value.0 <==> TraceSucceeds(original.trace))
  {
    var m := new ReceivedMessage.Copy(original);
    var ok, nodes := m.WaitForTrace(net);
    if !ok { return None; }
    assert m.Settled(nodes);
    if m.Status() != Finalized { return None; }
    var code := m.OutcomeExitCode(nodes);
    var succeeded := m.TraceSucceeded(nodes);
    r := Some((succeeded, code));
  }
}
