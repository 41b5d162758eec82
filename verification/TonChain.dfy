/** The chain as the log poller sees it: one transaction chain per account, ordered by logical
    time, of which every masterchain block fixes a prefix. */
module TonChain {
  import opened Prelude
  import opened Bits
  import opened Filters

  type Data = seq<Byte>

  datatype Message =
    | Internal
    | ExternalIn
    | ExternalOut(src: Address, dst: Option<seq<Byte>>, body: Option<Data>)

  /** `out` is absent where the transaction has no outgoing message list. */
  datatype Transaction = Transaction(lt: nat, hash: nat, prevLT: nat, prevHash: nat, out: Option<seq<Message>>)

  /** An external-out message with its transaction: `types.MsgWithCtx`. */
  datatype Event = Event(txHash: nat, lt: nat, src: Address, dst: Option<seq<Byte>>, body: Data)

  function TopicOf(dst: Option<seq<Byte>>): Option<Topic> {
    if dst.None? || |dst.value| < 4 then None
    else
      var d := dst.value[|dst.value| - 4..];
      Some((d[0] as int) * 0x100_0000 + (d[1] as int) * 0x1_0000 + (d[2] as int) * 0x100 + d[3] as int)
  }

  /** The topic is the big-endian number that the last four bytes of the destination form; a destination
      that is missing or shorter has none. */
  lemma {:induction false} TopicIsLastFourBytes(dst: Option<seq<Byte>>)
    ensures TopicOf(dst).Some? <==> dst.Some? && |dst.value| >= 4
    ensures TopicOf(dst).Some? ==> TopicOf(dst).value == BigEndian(dst.value[|dst.value| - 4..])
  {
    if dst.Some? && |dst.value| >= 4 {
      var d := dst.value[|dst.value| - 4..];
      FourBytes(d[0], d[1], d[2], d[3]);
      assert d == [d[0], d[1], d[2], d[3]];
    }
  }

  lemma {:induction false} FourBytes(a: Byte, b: Byte, c: Byte, d: Byte)
    ensures BigEndian([a, b, c, d]) == a * 0x100_0000 + b * 0x1_0000 + c * 0x100 + d
  {
    ByteRange();
    Width32();
    assert Pow2(24) == 0x100_0000 by { Pow2Adds(8, 16); }
    BigEndianStep([a, b, c, d]);
    BigEndianStep([b, c, d]);
    BigEndianStep([c, d]);
    BigEndianStep([d]);
    assert [a, b, c, d][1..] == [b, c, d] && [b, c, d][1..] == [c, d] && [c, d][1..] == [d] && [d][1..] == [];
  }

  /* ---------- events of transactions ---------- */

  function MessageEvents(tx: Transaction, msgs: seq<Message>): seq<Event> {
    if msgs == [] then []
    else
      (match msgs[0]
       case ExternalOut(src, dst, Some(body)) => [Event(tx.hash, tx.lt, src, dst, body)]
       case _ => []) + MessageEvents(tx, msgs[1..])
  }

  function TxEvents(tx: Transaction): seq<Event> {
    if tx.out.None? then [] else MessageEvents(tx, tx.out.value)
  }

  /** Every external-out message with a body, in chain order. */
  function Events(txs: seq<Transaction>): seq<Event> {
    if txs == [] then [] else TxEvents(txs[0]) + Events(txs[1..])
  }

  lemma {:induction false} EventsSplit(a: seq<Transaction>, b: seq<Transaction>)
    ensures Events(a + b) == Events(a) + Events(b)
  {
    if a == [] {
      assert a + b == b;
    } else {
      assert (a + b)[1..] == a[1..] + b;
      EventsSplit(a[1..], b);
    }
  }

  lemma {:induction false} MessageEventsSplit(tx: Transaction, a: seq<Message>, m: Message)
    ensures MessageEvents(tx, a + [m]) == MessageEvents(tx, a) + MessageEvents(tx, [m])
  {
    if a == [] {
      assert a + [m] == [m];
    } else {
      assert (a + [m])[1..] == a[1..] + [m];
      MessageEventsSplit(tx, a[1..], m);
    }
  }

  /** The event that an external-out message with a body makes, field by field. */
  ghost predicate Makes(tx: Transaction, m: Message, ev: Event) {
    && m.ExternalOut? && m.body.Some?
    && ev.txHash == tx.hash && ev.lt == tx.lt && ev.src == m.src && ev.dst == m.dst && ev.body == m.body.value
  }

  /** Every external-out message with a body makes one event, in the order of the messages, and no other
      message makes one: event `j` is made by message `ks[j]`. */
  lemma {:induction false} EventsByIndex(tx: Transaction, msgs: seq<Message>) returns (ks: seq<nat>)
    ensures |ks| == |MessageEvents(tx, msgs)|
    ensures forall j :: 0 <= j < |ks| ==> ks[j] < |msgs| && Makes(tx, msgs[ks[j]], MessageEvents(tx, msgs)[j])
    ensures forall i, j :: 0 <= i < j < |ks| ==> ks[i] < ks[j]
    ensures forall k :: 0 <= k < |msgs| && msgs[k].ExternalOut? && msgs[k].body.Some? ==> k in ks
    decreases |msgs|
  {
    if msgs == [] {
      ks := [];
    } else {
      var n := |msgs| - 1;
      var last := msgs[n];
      ks := EventsByIndex(tx, msgs[..n]);
      assert msgs == msgs[..n] + [last];
      MessageEventsSplit(tx, msgs[..n], last);
      EventOfOne(tx, last);
      if last.ExternalOut? && last.body.Some? { ks := ks + [n]; }
    }
  }

  lemma {:induction false} EventOfOne(tx: Transaction, m: Message)
    ensures MessageEvents(tx, [m]) == if m.ExternalOut? && m.body.Some? then [Event(tx.hash, tx.lt, m.src, m.dst, m.body.value)] else []
  {
    assert [m][1..] == [];
  }

  /* ---------- chains ---------- */

  /** Logical times grow from one on, and every transaction points to its predecessor. */
  ghost predicate Linked(txs: seq<Transaction>) {
    && (forall i {:trigger txs[i].lt} :: 0 <= i < |txs| ==> txs[i].lt >= 1)
    && (forall i, j :: 0 <= i < j < |txs| ==> Older(txs, i, j))
    && (forall i {:trigger txs[i].prevLT} {:trigger txs[i].prevHash} ::
          0 <= i < |txs| ==> txs[i].prevLT == LastLT(txs, i) && txs[i].prevHash == LastHash(txs, i))
  }

  predicate Older(txs: seq<Transaction>, i: nat, j: nat)
    requires i < |txs| && j < |txs|
  {
    txs[i].lt < txs[j].lt
  }

  /** Messages leave from their own account. */
  ghost predicate ValidAccount(a: Address, txs: seq<Transaction>) {
    && Linked(txs)
    && (forall ev :: ev in Events(txs) ==> ev.src == a)
  }

  /** `prefix(a, b)`: how many transactions of account `a` are in blocks up to `b`. */
  datatype World = World(txs: Address -> seq<Transaction>, prefix: (Address, nat) -> nat)

  ghost predicate ValidWorld(w: World) {
    && (forall a {:trigger w.txs(a)} :: ValidAccount(a, w.txs(a)))
    && (forall a, b {:trigger w.prefix(a, b)} :: w.prefix(a, b) <= |w.txs(a)|)
    && (forall a, b, c {:trigger w.prefix(a, b), w.prefix(a, c)} :: b <= c ==> w.prefix(a, b) <= w.prefix(a, c))
  }

  /** The logical time of the last of the first `n` transactions. */
  function LastLT(txs: seq<Transaction>, n: nat): nat
    requires n <= |txs|
  {
    if n == 0 then 0 else txs[n - 1].lt
  }

  function LastHash(txs: seq<Transaction>, n: nat): nat
    requires n <= |txs|
  {
    if n == 0 then 0 else txs[n - 1].hash
  }

  /** Logical times tell positions apart. */
  lemma {:induction false} LTsOrder(txs: seq<Transaction>, i: nat, n: nat)
    requires Linked(txs) && i < |txs| && n <= |txs|
    ensures txs[i].lt <= LastLT(txs, n) <==> i < n
  {
    if n > 0 && i != n - 1 {
      if i < n - 1 { assert Older(txs, i, n - 1); } else { assert Older(txs, n - 1, i); }
    }
  }
}
