/** The log collector (`pkg/logpoller/loader.go`): for every watched account it walks the
    transaction chain backwards, page by page, and gathers the external-out messages.

    The network is arbitrary: any request may fail, and a page may be shorter than asked for. */
module Loader {
  import opened Prelude
  import opened Filters
  import opened TonChain

  /** How the network treats one account during one poll: whether the account state at the two
      blocks is answered, and, when a page is asked for that ends with the n-th transaction of the
      account, how many transactions are served (none: the request is refused) and whether they come
      with an error. */
  datatype FetchEnv = FetchEnv(prevOk: bool, toOk: bool, served: nat -> nat, broken: nat -> bool)

  function Min(a: nat, b: nat): nat { if a < b then a else b }
  function Max(a: nat, b: nat): nat { if a < b then b else a }

  /* ---------- specification of the walk ---------- */

  /** How many transactions the page below position `c` holds. */
  function PageLen(c: nat, pageSize: nat, served: nat -> nat): nat {
    Min(Min(pageSize, served(c)), c)
  }

  /** The position down to which the walk reads, starting below `c` and stopping once a page
      reaches back before position `s`. */
  function Walk(s: nat, c: nat, pageSize: nat, served: nat -> nat): (stop: nat)
    ensures stop <= c
    decreases c
  {
    var n := PageLen(c, pageSize, served);
    if n == 0 then c
    else if c - n < s then c - n
    else Walk(s, c - n, pageSize, served)
  }

  /** If every page is served, the walk reads back to the first new transaction. */
  lemma {:induction false} WalkReachesStart(s: nat, c: nat, pageSize: nat, served: nat -> nat)
    requires s <= c && pageSize >= 1
    requires forall i :: s < i <= c ==> served(i) >= 1
    ensures Walk(s, c, pageSize, served) <= s
    decreases c
  {
    var n := PageLen(c, pageSize, served);
    if c == s || c - n < s {
    } else {
      WalkReachesStart(s, c - n, pageSize, served);
    }
  }

  /** The positions below which the walk asks for a page. */
  function Asked(s: nat, c: nat, pageSize: nat, served: nat -> nat): set<nat>
    decreases c
  {
    var n := PageLen(c, pageSize, served);
    if n == 0 || c - n < s then {c} else {c} + Asked(s, c - n, pageSize, served)
  }

  /** No page that is asked for at a position after `s` is refused. */
  ghost predicate Answered(asked: set<nat>, s: nat, pageSize: nat, served: nat -> nat) {
    forall i :: i in asked && i > s ==> PageLen(i, pageSize, served) >= 1
  }

  /** Some page that is asked for comes with an error. */
  ghost predicate Breaks(asked: set<nat>, pageSize: nat, served: nat -> nat, broken: nat -> bool) {
    exists i :: i in asked && PageLen(i, pageSize, served) >= 1 && broken(i)
  }

  lemma {:induction false} OneMoreAsked(asked: set<nat>, c: nat, s: nat, pageSize: nat, served: nat -> nat, broken: nat -> bool)
    ensures Answered({c} + asked, s, pageSize, served) <==>
            (c > s ==> PageLen(c, pageSize, served) >= 1) && Answered(asked, s, pageSize, served)
    ensures Breaks({c} + asked, pageSize, served, broken) <==>
            (PageLen(c, pageSize, served) >= 1 && broken(c)) || Breaks(asked, pageSize, served, broken)
  {
    var more := {c} + asked;
    assert c in more;
    if Answered(more, s, pageSize, served) {
      forall i | i in asked && i > s ensures PageLen(i, pageSize, served) >= 1 { assert i in more; }
    }
    if i :| i in asked && PageLen(i, pageSize, served) >= 1 && broken(i) { assert i in more; }
  }

  lemma {:induction false} OnlyAsked(c: nat, s: nat, pageSize: nat, served: nat -> nat, broken: nat -> bool)
    ensures Answered({c}, s, pageSize, served) <==> (c > s ==> PageLen(c, pageSize, served) >= 1)
    ensures Breaks({c}, pageSize, served, broken) <==> PageLen(c, pageSize, served) >= 1 && broken(c)
  {
    OneMoreAsked({}, c, s, pageSize, served, broken);
    assert {c} + {} == {c};
  }

  /** The walk reads back to the first new transaction if and only if no page that it asks for on the
      way is refused. */
  lemma {:induction false} WalkReachesStartIff(s: nat, c: nat, pageSize: nat, served: nat -> nat)
    requires s <= c
    ensures Walk(s, c, pageSize, served) <= s <==> Answered(Asked(s, c, pageSize, served), s, pageSize, served)
    decreases c
  {
    var n := PageLen(c, pageSize, served);
    if n == 0 || c - n < s {
      OnlyAsked(c, s, pageSize, served, i => false);
    } else {
      OneMoreAsked(Asked(s, c - n, pageSize, served), c, s, pageSize, served, i => false);
      WalkReachesStartIff(s, c - n, pageSize, served);
    }
  }

  /** A walk through the whole history stops at the refused page, if there is one, and otherwise at the
      beginning. */
  lemma {:induction false} WalkStopsAtIff(c: nat, p: nat, pageSize: nat, served: nat -> nat)
    ensures Walk(0, c, pageSize, served) == p <==>
            p in Asked(0, c, pageSize, served) && PageLen(p, pageSize, served) == 0
    decreases c
  {
    var n := PageLen(c, pageSize, served);
    if n == 0 {
    } else {
      WalkStopsAtIff(c - n, p, pageSize, served);
      assert p in {c} + Asked(0, c - n, pageSize, served) <==> p == c || p in Asked(0, c - n, pageSize, served);
    }
  }

  /* ---------- the code ---------- */

  /** The page that ends with the transaction (lt, hash), oldest first, and whether it comes with an
      error; empty if there is none or the request is refused. */
  method ListTransactions(
    txs: seq<Transaction>, limit: nat, lt: nat, hash: nat, served: nat -> nat, broken: nat -> bool, ghost c: nat)
    returns (batch: seq<Transaction>, error: bool)
    requires Linked(txs) && c <= |txs| && lt == LastLT(txs, c) && hash == LastHash(txs, c)
    ensures batch == txs[c - PageLen(c, limit, served)..c]
    ensures batch != [] ==> error == broken(c)
  {
    var i := |txs|;
    while i > 0 && !(txs[i - 1].lt == lt && txs[i - 1].hash == hash)
      invariant c <= i <= |txs|
    {
      i := i - 1;
    }
    if i == 0 { return [], true; }
    LTsOrder(txs, i - 1, c);
    batch := txs[i - PageLen(i, limit, served)..i];
    error := broken(i);
  }

  /** The external-out messages with a body of one transaction. */
  method TxMessages(tx: Transaction, msgs: seq<Message>) returns (events: seq<Event>)
    ensures events == MessageEvents(tx, msgs)
  {
    events := [];
    for k := 0 to |msgs|
      invariant events == MessageEvents(tx, msgs[..k])
    {
      assert msgs[..k + 1] == msgs[..k] + [msgs[k]];
      MessageEventsSplit(tx, msgs[..k], msgs[k]);
      if msgs[k].ExternalOut? && msgs[k].body.Some? {
        events := events + [Event(tx.hash, tx.lt, msgs[k].src, msgs[k].dst, msgs[k].body.value)];
      }
    }
    assert msgs[..|msgs|] == msgs;
  }

  lemma {:induction false} EventsOfOne(tx: Transaction)
    ensures Events([tx]) == TxEvents(tx)
  {
    assert [tx][1..] == [];
    assert TxEvents(tx) + [] == TxEvents(tx);
  }

  lemma {:induction false} EventsSnoc(txs: seq<Transaction>, i: nat, j: nat)
    requires i <= j < |txs|
    ensures Events(txs[i..j + 1]) == Events(txs[i..j]) + TxEvents(txs[j])
    ensures i == j ==> Events(txs[i..j]) == []
  {
    SliceSnoc(txs, i, j);
    EventsOfOne(txs[j]);
    EventsSplit(txs[i..j], [txs[j]]);
  }

  /** The events of a transaction, none if it is not newer than `startLT`. */
  method NewEvents(tx: Transaction, startLT: nat) returns (events: seq<Event>)
    ensures events == if tx.lt <= startLT then [] else TxEvents(tx)
  {
    if tx.lt <= startLT || tx.out.None? { return []; }
    events := TxMessages(tx, tx.out.value);
  }

  /** The events of the transactions before `i`, without the first `skip` of them. */
  ghost function EventsUpTo(batch: seq<Transaction>, skip: nat, i: nat): seq<Event>
    requires i <= |batch|
  {
    if i <= skip then [] else Events(batch[skip..i])
  }

  lemma {:induction false} EventsUpToNext(batch: seq<Transaction>, skip: nat, i: nat)
    requires i < |batch|
    ensures EventsUpTo(batch, skip, i + 1) == EventsUpTo(batch, skip, i) + if i < skip then [] else TxEvents(batch[i])
  {
    if i >= skip { EventsSnoc(batch, skip, i); }
  }

  /** The events of one page that are newer than `startLT`. */
  method PageEvents(batch: seq<Transaction>, startLT: nat, ghost skip: nat) returns (events: seq<Event>)
    requires skip <= |batch|
    requires forall i :: 0 <= i < |batch| ==> (batch[i].lt <= startLT <==> i < skip)
    ensures events == Events(batch[skip..])
  {
    events := [];
    for i := 0 to |batch|
      invariant events == EventsUpTo(batch, skip, i)
    {
      EventsUpToNext(batch, skip, i);
      var more := NewEvents(batch[i], startLT);
      events := events + more;
    }
    assert batch[skip..|batch|] == batch[skip..];
  }

  /** Which transactions of a page are old. */
  lemma {:induction false} OldOnesOfPage(txs: seq<Transaction>, s: nat, b: nat, page: seq<Transaction>, skip: nat)
    requires Linked(txs) && s <= |txs| && b + skip == Max(b, s)
    requires b + |page| <= |txs| && forall i :: 0 <= i < |page| ==> page[i] == txs[b + i]
    ensures forall i :: 0 <= i < |page| ==> (page[i].lt <= LastLT(txs, s) <==> i < skip)
  {
    forall i | 0 <= i < |page| ensures page[i].lt <= LastLT(txs, s) <==> i < skip {
      LTsOrder(txs, b + i, s);
    }
  }

  /** The walk, one page on: `lower` is where the new part of the page below `c` starts. */
  lemma {:induction false} WalkStep(s: nat, c: nat, pageSize: nat, served: nat -> nat, broken: nat -> bool, lower: nat)
    requires s <= c && lower == Max(c - PageLen(c, pageSize, served), s)
    ensures c - PageLen(c, pageSize, served) < s || PageLen(c, pageSize, served) == 0 ==>
              && Max(s, Walk(s, c, pageSize, served)) == lower
              && (Breaks(Asked(s, c, pageSize, served), pageSize, served, broken) <==>
                    PageLen(c, pageSize, served) > 0 && broken(c))
    ensures c - PageLen(c, pageSize, served) >= s && PageLen(c, pageSize, served) > 0 ==>
              && Walk(s, c, pageSize, served) == Walk(s, lower, pageSize, served)
              && (Breaks(Asked(s, c, pageSize, served), pageSize, served, broken) <==>
                    broken(c) || Breaks(Asked(s, lower, pageSize, served), pageSize, served, broken))
  {
    var n := PageLen(c, pageSize, served);
    if n == 0 || c - n < s {
      OnlyAsked(c, s, pageSize, served, broken);
    } else {
      OneMoreAsked(Asked(s, c - n, pageSize, served), c, s, pageSize, served, broken);
    }
  }

  /** The page of the transactions from `b` to `c`: its new events, whether it reaches back before
      position `s`, and the cursor just before its oldest transaction. */
  method DigestPage(ghost txs: seq<Transaction>, batch: seq<Transaction>, startLT: nat, ghost s: nat, ghost b: nat, ghost c: nat)
    returns (events: seq<Event>, ended: bool, nextLT: nat, nextHash: nat)
    requires Linked(txs) && s <= c <= |txs| && b < c && batch == txs[b..c] && startLT == LastLT(txs, s)
    ensures events == Events(txs[Max(b, s)..c]) && (ended <==> b < s)
    ensures nextLT == LastLT(txs, b) && nextHash == LastHash(txs, b)
  {
    ghost var skip := Max(b, s) - b;
    OldOnesOfPage(txs, s, b, batch, skip);
    SliceOfSlice(txs, b, c, skip);
    events := PageEvents(batch, startLT, skip);
    assert batch[0] == txs[b];
    ended := batch[0].lt <= startLT;
    nextLT, nextHash := batch[0].prevLT, batch[0].prevHash;
  }

  /** How a turn of the page loop ends. */
  datatype Turn = Failed | Ended | Next(lt: nat, hash: nat)

  /** One turn of the page loop: the new events of the page below position `c`, and whether the fetch
      fails with it, the loop ends with it, or goes on just before its oldest transaction. */
  method ReadPage(txs: seq<Transaction>, ghost s: nat, ghost c: nat, startLT: nat, pageSize: nat,
                  curLT: nat, curHash: nat, served: nat -> nat, broken: nat -> bool)
    returns (events: seq<Event>, turn: Turn, ghost lower: nat)
    requires Linked(txs) && s <= c <= |txs| && startLT == LastLT(txs, s)
    requires curLT == LastLT(txs, c) && curHash == LastHash(txs, c)
    ensures turn.Failed? ==> Breaks(Asked(s, c, pageSize, served), pageSize, served, broken)
    ensures !turn.Failed? ==> s <= lower <= c && events == Events(txs[lower..c])
    ensures turn.Ended? ==>
              && Max(s, Walk(s, c, pageSize, served)) == lower
              && !Breaks(Asked(s, c, pageSize, served), pageSize, served, broken)
    ensures turn.Next? ==>
              && lower < c && Walk(s, c, pageSize, served) == Walk(s, lower, pageSize, served)
              && (Breaks(Asked(s, c, pageSize, served), pageSize, served, broken) <==>
                    Breaks(Asked(s, lower, pageSize, served), pageSize, served, broken))
              && turn.lt == LastLT(txs, lower) && turn.hash == LastHash(txs, lower)
  {
    var batch, error := ListTransactions(txs, pageSize, curLT, curHash, served, broken, c);
    ghost var b := c - |batch|;
    lower := Max(b, s);
    WalkStep(s, c, pageSize, served, broken, lower);
    if |batch| == 0 {
      assert txs[c..c] == [];
      return [], Ended, lower;
    }
    if error { return [], Failed, lower; }
    var ended, nextLT, nextHash;
    events, ended, nextLT, nextHash := DigestPage(txs, batch, startLT, s, b, c);
    turn := if ended then Ended else Next(nextLT, nextHash);
  }

  /** `events` are, in some order, the events of the transactions from `c` to `e`. */
  ghost predicate Collected(txs: seq<Transaction>, c: nat, e: nat, events: seq<Event>) {
    c <= e <= |txs| && multiset(events) == multiset(Events(txs[c..e]))
  }

  lemma {:induction false} CollectedNone(txs: seq<Transaction>, e: nat)
    requires e <= |txs|
    ensures Collected(txs, e, e, [])
  {
    assert txs[e..e] == [];
  }

  lemma {:induction false} CollectedPage(txs: seq<Transaction>, lower: nat, c: nat, e: nat, events: seq<Event>, page: seq<Event>)
    requires lower <= c && Collected(txs, c, e, events) && page == Events(txs[lower..c])
    ensures Collected(txs, lower, e, events + page)
  {
    SliceJoins(txs, lower, c, e);
    EventsSplit(txs[lower..c], txs[c..e]);
    var p, q := Events(txs[lower..c]), Events(txs[c..e]);
    assert multiset(p + q) == multiset(p) + multiset(q);
  }

  /** The page loop, from the cursor (endLT, endHash) down; it fails if a page comes with an error. */
  method CollectPages(txs: seq<Transaction>, ghost s: nat, ghost e: nat, startLT: nat, endLT: nat, endHash: nat,
                      pageSize: nat, served: nat -> nat, broken: nat -> bool)
    returns (r: Result<seq<Event>>)
    requires Linked(txs) && s <= e <= |txs| && startLT == LastLT(txs, s)
    requires endLT == LastLT(txs, e) && endHash == LastHash(txs, e)
    ensures r.Err? <==> Breaks(Asked(s, e, pageSize, served), pageSize, served, broken)
    ensures r.Ok? ==> Collected(txs, Max(s, Walk(s, e, pageSize, served)), e, r.value)
  {
    var events := [];
    var curLT, curHash := endLT, endHash;
    ghost var c := e;
    CollectedNone(txs, e);
    while true
      invariant s <= c <= e && curLT == LastLT(txs, c) && curHash == LastHash(txs, c)
      invariant Walk(s, e, pageSize, served) == Walk(s, c, pageSize, served)
      invariant Breaks(Asked(s, e, pageSize, served), pageSize, served, broken) <==>
                Breaks(Asked(s, c, pageSize, served), pageSize, served, broken)
      invariant Collected(txs, c, e, events)
      decreases c
    {
      var page, turn, lower := ReadPage(txs, s, c, startLT, pageSize, curLT, curHash, served, broken);
      if turn.Failed? { return Err; }
      CollectedPage(txs, lower, c, e, events, page);
      events := events + page;
      if turn.Ended? { return Ok(events); }
      curLT, curHash, c := turn.lt, turn.hash, lower;
    }
  }

  lemma {:induction false} NothingNew(txs: seq<Transaction>, s: nat, e: nat)
    requires Linked(txs) && s <= e <= |txs|
    ensures LastLT(txs, s) >= LastLT(txs, e) <==> s == e
  {
    if s < e {
      var last := e - 1;
      LTsOrder(txs, last, s);
    }
  }

  /** Some page of the walk from `e` down to `s` comes with an error; without new transactions no page
      is asked for. */
  ghost predicate WalkFails(s: nat, e: nat, pageSize: nat, env: FetchEnv) {
    s < e && Breaks(Asked(s, e, pageSize, env.served), pageSize, env.served, env.broken)
  }

  /** Nothing if no transaction is new, and the page loop otherwise: every event from the stopping
      position (or the start, if that is later) up to the end is collected exactly once, whatever the
      page size and whatever the network serves. */
  method WalkPages(txs: seq<Transaction>, s: nat, e: nat, pageSize: nat, env: FetchEnv)
    returns (r: Result<seq<Event>>)
    requires Linked(txs) && s <= e <= |txs|
    ensures r.Err? <==> WalkFails(s, e, pageSize, env)
    ensures r.Ok? ==> Collected(txs, Max(s, Walk(s, e, pageSize, env.served)), e, r.value)
  {
    var startLT, endLT := LastLT(txs, s), LastLT(txs, e);
    NothingNew(txs, s, e);
    if startLT >= endLT {
      CollectedNone(txs, e);
      return Ok([]);
    }
    r := CollectPages(txs, s, e, startLT, endLT, LastHash(txs, e), pageSize, env.served, env.broken);
  }

  /* ---------- one account, all accounts ---------- */

  /** The first transaction of the window (prev, ..]; block 0 stands for no previous block. */
  function Start(w: World, a: Address, prev: nat): nat {
    if prev == 0 then 0 else w.prefix(a, prev)
  }

  /** Where the scan starts: a failing request for the previous account state reads as "the account
      did not exist yet". */
  function SeenStart(w: World, a: Address, prev: nat, env: FetchEnv): nat {
    if env.prevOk then Start(w, a, prev) else 0
  }

  /** A fetch fails if the account state at the last block is refused, or a page comes with an error. */
  ghost predicate FetchFails(w: World, a: Address, prev: nat, to: nat, pageSize: nat, env: FetchEnv) {
    !env.toOk || WalkFails(SeenStart(w, a, prev, env), w.prefix(a, to), pageSize, env)
  }

  /** The first transaction that the fetch of the window (prev, to] returns events of; equal to the
      end of the window where the fetch fails. */
  ghost function From(w: World, a: Address, prev: nat, to: nat, pageSize: nat, env: FetchEnv): (from: nat)
    requires SeenStart(w, a, prev, env) <= w.prefix(a, to)
    ensures from <= w.prefix(a, to)
  {
    var s, e := SeenStart(w, a, prev, env), w.prefix(a, to);
    if FetchFails(w, a, prev, to, pageSize, env) then e else Max(s, Walk(s, e, pageSize, env.served))
  }

  /** There is no previous block, or it is before the last one. */
  predicate IsWindow(prev: nat, to: nat) {
    prev == 0 || prev < to
  }

  lemma {:induction false} WindowIsOrdered(w: World, a: Address, prev: nat, to: nat, env: FetchEnv)
    requires ValidWorld(w) && IsWindow(prev, to)
    ensures ValidAccount(a, w.txs(a))
    ensures Start(w, a, prev) <= w.prefix(a, to) <= |w.txs(a)|
    ensures SeenStart(w, a, prev, env) <= w.prefix(a, to)
  {
    assert prev < to ==> w.prefix(a, prev) <= w.prefix(a, to);
    assert ValidAccount(a, w.txs(a));
  }

  /** The transactions whose events a fetch returns. */
  ghost function Fetched(w: World, a: Address, prev: nat, to: nat, pageSize: nat, env: FetchEnv): seq<Transaction>
    requires ValidWorld(w) && IsWindow(prev, to)
  {
    WindowIsOrdered(w, a, prev, to, env);
    w.txs(a)[From(w, a, prev, to, pageSize, env)..w.prefix(a, to)]
  }

  method FetchMessagesForAddress(w: World, a: Address, prev: nat, to: nat, pageSize: nat, env: FetchEnv)
    returns (r: Result<seq<Event>>)
    requires ValidWorld(w)
    ensures r.Ok? <==> IsWindow(prev, to) && !FetchFails(w, a, prev, to, pageSize, env)
    ensures r.Ok? ==> multiset(r.value) == multiset(Events(Fetched(w, a, prev, to, pageSize, env)))
    ensures r.Err? && IsWindow(prev, to) ==> Fetched(w, a, prev, to, pageSize, env) == []
  {
    if prev != 0 && prev >= to { return Err; }
    WindowIsOrdered(w, a, prev, to, env);
    if !env.toOk { return Err; }
    r := WalkPages(w.txs(a), SeenStart(w, a, prev, env), w.prefix(a, to), pageSize, env);
  }

  /** One goroutine per address, completing in any order; a failed fetch is only logged. */
  method BackfillForAddresses(w: World, addresses: seq<Address>, prev: nat, to: nat, pageSize: nat, env: Address -> FetchEnv)
    returns (all: seq<Event>)
    requires ValidWorld(w)
    requires forall i, j :: 0 <= i < j < |addresses| ==> addresses[i] != addresses[j]
    ensures forall ev :: multiset(all)[ev] ==
              if IsWindow(prev, to) && ev.src in addresses
              then multiset(Events(Fetched(w, ev.src, prev, to, pageSize, env(ev.src))))[ev] else 0
  {
    all := [];
    var running := set a | a in addresses;
    while running != {}
      invariant forall a :: a in running ==> a in addresses
      invariant forall ev :: multiset(all)[ev] ==
                  if IsWindow(prev, to) && ev.src in addresses && ev.src !in running
                  then multiset(Events(Fetched(w, ev.src, prev, to, pageSize, env(ev.src))))[ev] else 0
      decreases running
    {
      var a :| a in running;
      var msgs := FetchMessagesForAddress(w, a, prev, to, pageSize, env(a));
      forall ev | IsWindow(prev, to) && ev in multiset(Events(Fetched(w, a, prev, to, pageSize, env(a)))) ensures ev.src == a {
        SegmentEventsAreOwn(w, a, prev, to, pageSize, env(a), ev);
      }
      if msgs.Ok? { all := all + msgs.value; }
      running := running - {a};
    }
  }

  lemma {:induction false} SegmentEventsAreOwn(
    w: World, a: Address, prev: nat, to: nat, pageSize: nat, env: FetchEnv, ev: Event)
    requires ValidWorld(w) && IsWindow(prev, to)
    requires ev in multiset(Events(Fetched(w, a, prev, to, pageSize, env)))
    ensures ev.src == a
  {
    WindowIsOrdered(w, a, prev, to, env);
    PartOfEvents(w.txs(a), From(w, a, prev, to, pageSize, env), w.prefix(a, to), ev);
  }

  lemma {:induction false} PartOfEvents(txs: seq<Transaction>, i: nat, j: nat, ev: Event)
    requires i <= j <= |txs| && ev in Events(txs[i..j])
    ensures ev in Events(txs)
  {
    SliceJoins(txs, 0, i, j);
    SliceJoins(txs, 0, j, |txs|);
    EventsSplit(txs[0..i], txs[i..j]);
    EventsSplit(txs[0..j], txs[j..|txs|]);
    assert txs[0..|txs|] == txs;
  }

  /** The new account state is answered, and so is every page, without an error. */
  ghost predicate Serving(env: FetchEnv) {
    env.toOk && forall i :: env.served(i) >= 1 && !env.broken(i)
  }

  /** Splitting a window at any middle block fetches the same events, when every request is answered. */
  lemma {:induction false} WindowsCompose(w: World, a: Address, prev: nat, mid: nat, to: nat, pageSize: nat, env: FetchEnv)
    requires ValidWorld(w) && prev < mid < to && pageSize >= 1
    requires env.prevOk && Serving(env)
    ensures Events(Fetched(w, a, prev, to, pageSize, env)) ==
            Events(Fetched(w, a, prev, mid, pageSize, env)) + Events(Fetched(w, a, mid, to, pageSize, env))
  {
    ServedWindowIsComplete(w, a, prev, to, pageSize, env);
    ServedWindowIsComplete(w, a, prev, mid, pageSize, env);
    ServedWindowIsComplete(w, a, mid, to, pageSize, env);
    var txs := w.txs(a);
    var s, m, e := Start(w, a, prev), w.prefix(a, mid), w.prefix(a, to);
    assert w.prefix(a, prev) <= m <= e;
    assert txs[s..e] == txs[s..m] + txs[m..e];
    EventsSplit(txs[s..m], txs[m..e]);
  }

  lemma {:induction false} ServedWindowIsComplete(w: World, a: Address, prev: nat, to: nat, pageSize: nat, env: FetchEnv)
    requires ValidWorld(w) && IsWindow(prev, to) && pageSize >= 1
    requires (env.prevOk || Start(w, a, prev) == 0) && Serving(env)
    ensures Start(w, a, prev) <= w.prefix(a, to) <= |w.txs(a)|
    ensures Fetched(w, a, prev, to, pageSize, env) == w.txs(a)[Start(w, a, prev)..w.prefix(a, to)]
  {
    WindowIsOrdered(w, a, prev, to, env);
    WalkReachesStart(Start(w, a, prev), w.prefix(a, to), pageSize, env.served);
  }
}
