/** The per-account transaction store (`pkg/txm/txstore.go`). */
module TxStores {
  import opened Prelude
  import opened Sorting
  import opened Traces

  /** A broadcast transaction: the accepted request it came from, and the trace of the wallet
      transaction that its received message describes. */
  datatype BroadcastTx = BroadcastTx(id: nat, trace: Trace)

  datatype UnconfirmedTx = UnconfirmedTx(lt: nat, expiration: nat, tx: BroadcastTx)
  datatype FinalizedTx = FinalizedTx(tx: BroadcastTx, exitCode: int, succeeded: bool)

  datatype Store = Store(unconfirmed: map<nat, UnconfirmedTx>, finalized: map<nat, FinalizedTx>)

  const EMPTY := Store(map[], map[])

  function AddUnconfirmed(s: Store, lt: nat, expiration: nat, tx: BroadcastTx): Result<Store> {
    if lt in s.unconfirmed || lt in s.finalized then Err
    else Ok(s.(unconfirmed := s.unconfirmed[lt := UnconfirmedTx(lt, expiration, tx)]))
  }

  function MarkFinalized(s: Store, lt: nat, succeeded: bool, exitCode: int): Result<Store> {
    if lt !in s.unconfirmed || lt in s.finalized then Err
    else Ok(Store(s.unconfirmed - {lt}, s.finalized[lt := FinalizedTx(s.unconfirmed[lt].tx, exitCode, succeeded)]))
  }

  datatype TxState = TxUnknown | TxCascading | TxFinalized(succeeded: bool, exitCode: int, actionFees: nat)

  function GetTxState(s: Store, lt: nat): TxState {
    if lt in s.unconfirmed then TxCascading
    else if lt in s.finalized then
      var f := s.finalized[lt];
      TxFinalized(f.succeeded, f.exitCode, InfoOf(f.tx.trace.tx).actionFees)
    else TxUnknown
  }

  function ExpiresBefore(a: UnconfirmedTx, b: UnconfirmedTx): bool {
    a.expiration < b.expiration
  }

  /** A snapshot: every unconfirmed transaction once, by ascending expiration. */
  ghost predicate IsSnapshot(s: Store, txs: seq<UnconfirmedTx>) {
    && (forall i, j :: 0 <= i < j < |txs| ==> txs[i].expiration <= txs[j].expiration)
    && |txs| == |s.unconfirmed|
    && (forall i :: 0 <= i < |txs| ==> txs[i].lt in s.unconfirmed && s.unconfirmed[txs[i].lt] == txs[i])
    && (forall i, j :: 0 <= i < j < |txs| ==> txs[i].lt != txs[j].lt)
    && (forall lt :: lt in s.unconfirmed ==> s.unconfirmed[lt] in txs)
  }

  /** Every unconfirmed transaction is stored under its own logical time. */
  ghost predicate Keyed(s: Store) {
    forall lt :: lt in s.unconfirmed ==> s.unconfirmed[lt].lt == lt
  }

  class TxStore {
    var unconfirmedTxs: map<nat, UnconfirmedTx>
    var finalizedTxs: map<nat, FinalizedTx>

    function Now(): Store
      reads this
    {
      Store(unconfirmedTxs, finalizedTxs)
    }

    constructor ()
      ensures Now() == EMPTY
    {
      unconfirmedTxs, finalizedTxs := map[], map[];
    }

    method Add(lt: nat, expiration: nat, tx: BroadcastTx) returns (ok: bool)
      modifies this
      ensures ok <==> AddUnconfirmed(old(Now()), lt, expiration, tx).Ok?
      ensures Now() == if ok then AddUnconfirmed(old(Now()), lt, expiration, tx).value else old(Now())
    {
      if lt in unconfirmedTxs { return false; }
      if lt in finalizedTxs { return false; }
      unconfirmedTxs := unconfirmedTxs[lt := UnconfirmedTx(lt, expiration, tx)];
      ok := true;
    }

    method Finalize(lt: nat, succeeded: bool, exitCode: int) returns (ok: bool)
      modifies this
      ensures ok <==> MarkFinalized(old(Now()), lt, succeeded, exitCode).Ok?
      ensures Now() == if ok then MarkFinalized(old(Now()), lt, succeeded, exitCode).value else old(Now())
    {
      if lt !in unconfirmedTxs { return false; }
      if lt in finalizedTxs { return false; }
      var u := unconfirmedTxs[lt];
      unconfirmedTxs := unconfirmedTxs - {lt};
      finalizedTxs := finalizedTxs[lt := FinalizedTx(u.tx, exitCode, succeeded)];
      ok := true;
    }

    method InflightCount() returns (n: nat)
      ensures n == |Now().unconfirmed|
    {
      n := |unconfirmedTxs|;
    }

    /** The values of the map, in arbitrary order, sorted by expiration. */
    method GetUnconfirmed() returns (txs: seq<UnconfirmedTx>)
      requires Keyed(Now())
      ensures IsSnapshot(Now(), txs)
    {
      var values: seq<UnconfirmedTx> := [];
      var left := unconfirmedTxs.Keys;
      ghost var done := {};
      while left != {}
        invariant done !! left && done + left == unconfirmedTxs.Keys
        invariant Lists(unconfirmedTxs, done, values)
        decreases left
      {
        var lt :| lt in left;
        ListsGrow(unconfirmedTxs, done, values, lt);
        values := values + [unconfirmedTxs[lt]];
        left, done := left - {lt}, done + {lt};
      }
      txs := SortBy(ExpiresBefore, values);
      ListsPermute(unconfirmedTxs, unconfirmedTxs.Keys, values, txs);
      assert |unconfirmedTxs.Keys| == |unconfirmedTxs|;
    }
  }

  /** A list of the values of some keys, each once. */
  ghost predicate Lists(m: map<nat, UnconfirmedTx>, keys: set<nat>, txs: seq<UnconfirmedTx>) {
    && |txs| == |keys|
    && (forall i :: 0 <= i < |txs| ==> txs[i].lt in keys && txs[i].lt in m && m[txs[i].lt] == txs[i])
    && (forall i, j :: 0 <= i < j < |txs| ==> txs[i].lt != txs[j].lt)
    && (forall lt :: lt in keys && lt in m ==> m[lt] in txs)
  }

  lemma {:induction false} ListsGrow(m: map<nat, UnconfirmedTx>, keys: set<nat>, txs: seq<UnconfirmedTx>, lt: nat)
    requires Lists(m, keys, txs) && lt in m && lt !in keys && m[lt].lt == lt
    ensures Lists(m, keys + {lt}, txs + [m[lt]])
  {
    var more := txs + [m[lt]];
    forall k | k in keys + {lt} && k in m ensures m[k] in more {
      if k == lt { assert more[|txs|] == m[lt]; }
    }
  }

  lemma {:induction false} ListsPermute(m: map<nat, UnconfirmedTx>, keys: set<nat>, a: seq<UnconfirmedTx>, b: seq<UnconfirmedTx>)
    requires Lists(m, keys, a) && multiset(a) == multiset(b)
    ensures Lists(m, keys, b)
  {
    assert |multiset(a)| == |a| && |multiset(b)| == |b|;
    assert forall x :: x in b <==> x in multiset(b);
    forall i | 0 <= i < |b| ensures b[i] in a { assert b[i] in multiset(a); }
    forall i, j | 0 <= i < j < |b| ensures b[i].lt != b[j].lt {
      if b[i].lt == b[j].lt {
        assert b[i] == m[b[i].lt] == b[j];
        OccursTwice(b, i, j);
        OnceEach(a, b[i]);
      }
    }
  }

  lemma {:induction false} OccursTwice<T>(xs: seq<T>, i: nat, j: nat)
    requires i < j < |xs| && xs[i] == xs[j]
    ensures multiset(xs)[xs[i]] >= 2
  {
    assert xs == xs[..i] + [xs[i]] + xs[i + 1..j] + [xs[j]] + xs[j + 1..];
  }

  lemma {:induction false} OnceEach(xs: seq<UnconfirmedTx>, x: UnconfirmedTx)
    requires forall i, j :: 0 <= i < j < |xs| ==> xs[i].lt != xs[j].lt
    ensures multiset(xs)[x] <= 1
  {
    if x in xs {
      var i :| 0 <= i < |xs| && xs[i] == x;
      MultisetWithout(xs, i);
      var rest := xs[..i] + xs[i + 1..];
      forall k | 0 <= k < |rest| ensures rest[k].lt != x.lt {
        assert rest[k] == if k < i then xs[k] else xs[k + 1];
      }
    }
  }
}
