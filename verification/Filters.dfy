/** The filter registry of the log poller (`pkg/logpoller/filters.go`): filters by name, and an
    index of the watched topics by address. */
module Filters {

  type Address = string
  type Topic = t: nat | t < 0x1_0000_0000

  datatype Filter = Filter(id: int, name: string, address: Address, topic: Topic)

  /** The two maps of the registry. */
  datatype State = State(byName: map<string, Filter>, byAddress: map<Address, set<Topic>>)

  const EMPTY := State(map[], map[])

  /** What the index says. */
  predicate Watched(s: State, a: Address, t: Topic) {
    a in s.byAddress && t in s.byAddress[a]
  }

  predicate Matches(f: Filter, a: Address, t: Topic) {
    f.address == a && f.topic == t
  }

  /** What the filters by name say. */
  ghost predicate Live(s: State, a: Address, t: Topic) {
    exists n :: n in s.byName && Matches(s.byName[n], a, t)
  }

  /** How many live filters for (a, t) have this identifier. */
  function IdCount(byName: map<string, Filter>, a: Address, t: Topic, id: int): nat {
    |NamesOf(byName, a, t, id)|
  }

  /** The names under which filters for (a, t) with this identifier are registered. */
  function NamesOf(byName: map<string, Filter>, a: Address, t: Topic, id: int): set<string> {
    set n | n in byName && byName[n].address == a && byName[n].topic == t && byName[n].id == id
  }

  function Register(s: State, f: Filter): State {
    var topics := if f.address in s.byAddress then s.byAddress[f.address] else {};
    State(s.byName[f.name := f], s.byAddress[f.address := topics + {f.topic}])
  }

  function Unregister(s: State, name: string): State {
    if name !in s.byName then s
    else
      var f := s.byName[name];
      var topics := (if f.address in s.byAddress then s.byAddress[f.address] else {}) - {f.topic};
      State(s.byName - {name},
            if topics == {} then s.byAddress - {f.address} else s.byAddress[f.address := topics])
  }

  /** The identifiers that matching reports, with multiplicity: none unless the index knows the pair. */
  function MatchCount(s: State, a: Address, t: Topic, id: int): nat {
    if Watched(s, a, t) then IdCount(s.byName, a, t, id) else 0
  }

  class Registry {
    var filtersByName: map<string, Filter>
    var filtersByAddress: map<Address, set<Topic>>

    function Now(): State
      reads this
    {
      State(filtersByName, filtersByAddress)
    }

    constructor ()
      ensures Now() == EMPTY
    {
      filtersByName, filtersByAddress := map[], map[];
    }

    method RegisterFilter(f: Filter)
      modifies this
      ensures Now() == Register(old(Now()), f)
    {
      filtersByName := filtersByName[f.name := f];
      if f.address !in filtersByAddress {
        filtersByAddress := filtersByAddress[f.address := {}];
      }
      filtersByAddress := filtersByAddress[f.address := filtersByAddress[f.address] + {f.topic}];
    }

    method UnregisterFilter(name: string)
      modifies this
      ensures Now() == Unregister(old(Now()), name)
    {
      if name !in filtersByName { return; }
      var f := filtersByName[name];
      filtersByName := filtersByName - {name};
      if f.address in filtersByAddress {
        filtersByAddress := filtersByAddress[f.address := filtersByAddress[f.address] - {f.topic}];
      }
      if f.address !in filtersByAddress || filtersByAddress[f.address] == {} {
        filtersByAddress := filtersByAddress - {f.address};
      }
    }

    /** The indexed addresses, each once, in the arbitrary order of map iteration. */
    method GetDistinctAddresses() returns (addresses: seq<Address>)
      ensures forall a :: a in addresses <==> a in filtersByAddress
      ensures forall i, j :: 0 <= i < j < |addresses| ==> addresses[i] != addresses[j]
    {
      addresses := [];
      var left := filtersByAddress.Keys;
      while left != {}
        invariant left <= filtersByAddress.Keys
        invariant forall a :: a in addresses <==> a in filtersByAddress && a !in left
        invariant forall i, j :: 0 <= i < j < |addresses| ==> addresses[i] != addresses[j]
        decreases left
      {
        var a :| a in left;
        addresses := addresses + [a];
        left := left - {a};
      }
    }

    method MatchingFilters(a: Address, t: Topic) returns (ids: seq<int>)
      ensures forall id :: multiset(ids)[id] == MatchCount(Now(), a, t, id)
    {
      ids := [];
      if a !in filtersByAddress || t !in filtersByAddress[a] { return; }
      var left := filtersByName;
      while left != map[]
        invariant forall id :: multiset(ids)[id] + IdCount(left, a, t, id) == IdCount(filtersByName, a, t, id)
        decreases left.Keys
      {
        var n :| n in left;
        var f := left[n];
        forall id ensures IdCount(left, a, t, id) ==
          IdCount(left - {n}, a, t, id) + if Matches(f, a, t) && f.id == id then 1 else 0
        {
          IdCountRemove(left, n, a, t, id);
        }
        if Matches(f, a, t) { ids := ids + [f.id]; }
        left := left - {n};
      }
    }
  }

  lemma {:induction false} IdCountRemove(m: map<string, Filter>, n: string, a: Address, t: Topic, id: int)
    requires n in m
    ensures IdCount(m, a, t, id) == IdCount(m - {n}, a, t, id) + if Matches(m[n], a, t) && m[n].id == id then 1 else 0
  {
    var all, rest := NamesOf(m, a, t, id), NamesOf(m - {n}, a, t, id);
    assert rest == all - {n};
  }

  /* ---------- soundness, in every state ---------- */

  /** Every reported identifier belongs to a live filter for exactly that address and topic. */
  lemma {:induction false} MatchesAreLive(s: State, a: Address, t: Topic, id: int)
    requires MatchCount(s, a, t, id) > 0
    ensures exists n :: n in s.byName && s.byName[n].address == a && s.byName[n].topic == t && s.byName[n].id == id
  {
    var hits := NamesOf(s.byName, a, t, id);
    assert |hits| > 0;
    var n :| n in hits;
  }

  /* ---------- agreement of the index with the filters ---------- */

  /** The index is exactly the image of the filters, and keeps no empty entry. */
  ghost predicate Agrees(s: State) {
    && (forall a, t :: Watched(s, a, t) <==> Live(s, a, t))
    && (forall a :: a in s.byAddress ==> s.byAddress[a] != {})
  }

  /** Some other live filter has the same address and topic. */
  ghost predicate Shared(s: State, name: string) {
    name in s.byName &&
    exists n :: n != name && n in s.byName && Matches(s.byName[n], s.byName[name].address, s.byName[name].topic)
  }

  /** Under agreement the index answers like a scan of all filters. */
  lemma {:induction false} AgreementMeansScan(s: State, a: Address, t: Topic, id: int)
    requires Agrees(s)
    ensures MatchCount(s, a, t, id) == IdCount(s.byName, a, t, id)
    ensures a in s.byAddress <==> exists n :: n in s.byName && s.byName[n].address == a
  {
    if !Watched(s, a, t) {
      assert !Live(s, a, t);
      forall n ensures n !in NamesOf(s.byName, a, t, id) {}
      assert NamesOf(s.byName, a, t, id) == {};
    }
    if a in s.byAddress {
      var u :| u in s.byAddress[a];
      assert Live(s, a, u) by { assert Watched(s, a, u); }
      var n :| n in s.byName && Matches(s.byName[n], a, u);
    }
    if n :| n in s.byName && s.byName[n].address == a {
      assert Live(s, a, s.byName[n].topic);
      assert Watched(s, a, s.byName[n].topic);
    }
  }

  lemma {:induction false} LiveAfterRegister(s: State, f: Filter, a: Address, t: Topic)
    ensures Live(Register(s, f), a, t) <==>
            Matches(f, a, t) || exists n :: n != f.name && n in s.byName && Matches(s.byName[n], a, t)
  {
    var s' := Register(s, f);
    if Matches(f, a, t) { assert f.name in s'.byName && Matches(s'.byName[f.name], a, t); }
    if n :| n != f.name && n in s.byName && Matches(s.byName[n], a, t) {
      assert n in s'.byName && Matches(s'.byName[n], a, t);
    }
  }

  /** Registering keeps agreement exactly when the name is free, or re-registered with the same
      address and topic, or the replaced filter's pair is still live under another name. */
  lemma {:induction false} RegisterKeepsAgreementIff(s: State, f: Filter)
    requires Agrees(s)
    ensures Agrees(Register(s, f)) <==>
            (f.name in s.byName ==> Matches(f, s.byName[f.name].address, s.byName[f.name].topic) || Shared(s, f.name))
  {
    var s' := Register(s, f);
    var kept := f.name in s.byName ==> Matches(f, s.byName[f.name].address, s.byName[f.name].topic) || Shared(s, f.name);
    forall a, t ensures Watched(s', a, t) <==> Matches(f, a, t) || Live(s, a, t) {
      assert Watched(s', a, t) <==> Matches(f, a, t) || Watched(s, a, t);
      assert Watched(s, a, t) <==> Live(s, a, t);
    }
    if kept {
      forall a, t ensures Watched(s', a, t) <==> Live(s', a, t) {
        LiveAfterRegister(s, f, a, t);
        if n :| n in s.byName && Matches(s.byName[n], a, t) {
          if n == f.name && !Matches(f, a, t) { assert Shared(s, f.name); }
        }
      }
    } else {
      var g := s.byName[f.name];
      LiveAfterRegister(s, f, g.address, g.topic);
      assert Live(s, g.address, g.topic);
      assert Watched(s', g.address, g.topic) && !Live(s', g.address, g.topic);
    }
  }

  lemma {:induction false} LiveAfterUnregister(s: State, name: string, a: Address, t: Topic)
    requires name in s.byName
    ensures Live(Unregister(s, name), a, t) <==>
            exists n :: n != name && n in s.byName && Matches(s.byName[n], a, t)
  {
    var s' := Unregister(s, name);
    if n :| n != name && n in s.byName && Matches(s.byName[n], a, t) {
      assert n in s'.byName && Matches(s'.byName[n], a, t);
    }
  }

  /** Unregistering keeps agreement exactly when no other live filter has the same address and
      topic; otherwise the remaining filter is blinded. */
  lemma {:induction false} UnregisterKeepsAgreementIff(s: State, name: string)
    requires Agrees(s)
    ensures Agrees(Unregister(s, name)) <==> !Shared(s, name)
  {
    if name in s.byName {
      var s', f := Unregister(s, name), s.byName[name];
      assert Live(s, f.address, f.topic) && Watched(s, f.address, f.topic);
      forall a, t ensures Watched(s', a, t) <==> Live(s, a, t) && !Matches(f, a, t) {
        assert Watched(s, a, t) <==> Live(s, a, t);
        assert Watched(s', a, t) <==> Watched(s, a, t) && !Matches(f, a, t);
      }
      if Shared(s, name) {
        LiveAfterUnregister(s, name, f.address, f.topic);
        assert Live(s', f.address, f.topic) && !Watched(s', f.address, f.topic);
      } else {
        forall a, t ensures Watched(s', a, t) <==> Live(s', a, t) {
          LiveAfterUnregister(s, name, a, t);
        }
      }
    }
  }

  /* ---------- whole histories ---------- */

  datatype Op = RegisterOp(filter: Filter) | UnregisterOp(name: string)

  function Apply(s: State, op: Op): State {
    match op
    case RegisterOp(f) => Register(s, f)
    case UnregisterOp(n) => Unregister(s, n)
  }

  function ApplyAll(ops: seq<Op>): State {
    if ops == [] then EMPTY else Apply(ApplyAll(ops[..|ops| - 1]), ops[|ops| - 1])
  }

  /** A history that only registers free names, for pairs that no live filter has. */
  ghost predicate Disciplined(ops: seq<Op>) {
    ops == [] ||
    (&& Disciplined(ops[..|ops| - 1])
     && var s, op := ApplyAll(ops[..|ops| - 1]), ops[|ops| - 1];
        op.RegisterOp? ==> op.filter.name !in s.byName && !Live(s, op.filter.address, op.filter.topic))
  }

  ghost predicate NoPairShared(s: State) {
    forall n :: !Shared(s, n)
  }

  lemma {:induction false} DisciplineKeepsAgreement(ops: seq<Op>)
    requires Disciplined(ops)
    ensures Agrees(ApplyAll(ops)) && NoPairShared(ApplyAll(ops))
  {
    if ops == [] {
    } else {
      var s, op := ApplyAll(ops[..|ops| - 1]), ops[|ops| - 1];
      DisciplineKeepsAgreement(ops[..|ops| - 1]);
      match op {
        case RegisterOp(f) =>
          RegisterKeepsAgreementIff(s, f);
          forall n ensures !Shared(Register(s, f), n) {
            SharedAfterRegister(s, f, n);
          }
        case UnregisterOp(name) =>
          UnregisterKeepsAgreementIff(s, name);
          forall n ensures !Shared(Unregister(s, name), n) {
            SharedAfterUnregister(s, name, n);
          }
      }
    }
  }

  lemma {:induction false} SharedAfterRegister(s: State, f: Filter, n: string)
    requires f.name !in s.byName
    ensures Shared(Register(s, f), n) ==> Shared(s, n) || Live(s, f.address, f.topic)
  {
    var s' := Register(s, f);
    if Shared(s', n) {
      var g := s'.byName[n];
      var m :| m != n && m in s'.byName && Matches(s'.byName[m], g.address, g.topic);
      if n == f.name {
        assert m in s.byName && Matches(s.byName[m], f.address, f.topic);
      } else if m == f.name {
        assert n in s.byName && Matches(s.byName[n], f.address, f.topic);
      } else {
        assert m in s.byName && n in s.byName;
      }
    }
  }

  lemma {:induction false} SharedAfterUnregister(s: State, name: string, n: string)
    ensures Shared(Unregister(s, name), n) ==> Shared(s, n)
  {
  }

  /** Two filters on one pair: after unregistering either, the index no longer knows the pair, so
      the other, though still registered, matches nothing. */
  lemma {:induction false} SharedPairIsBlinded(f: Filter, g: Filter)
    requires f.name != g.name && Matches(g, f.address, f.topic)
    ensures var s := ApplyAll([RegisterOp(f), RegisterOp(g), UnregisterOp(f.name)]);
            && g.name in s.byName && s.byName[g.name] == g
            && forall id :: MatchCount(s, g.address, g.topic, id) == 0
  {
    var ops := [RegisterOp(f), RegisterOp(g), UnregisterOp(f.name)];
    assert ops[..2] == [RegisterOp(f), RegisterOp(g)] && ops[..2][..1] == [RegisterOp(f)];
    assert ops[..2][..1][..0] == [];
    assert ApplyAll(ops[..2][..1]) == Register(EMPTY, f);
    assert ApplyAll(ops[..2]) == Register(Register(EMPTY, f), g);
  }
}
