/** Cells of the TON Virtual Machine and the two loops that every linked-cell packer shares:
    filling builders from left to right, and linking them from the last to the first. */
module Cells {
  import opened Prelude

  /** A cell, a builder under construction, or the unread rest of a cell (a slice). */
  datatype Cell = Cell(bits: seq<bool>, refs: seq<Cell>)

  const MAX_BITS: nat := 1023
  const MAX_REFS: nat := 4
  const EMPTY := Cell([], [])

  predicate Fits(c: Cell) {
    |c.bits| <= MAX_BITS && |c.refs| <= MAX_REFS
  }

  /** Every cell of the tree is within the limits. */
  predicate Legal(c: Cell) {
    Fits(c) && forall i :: 0 <= i < |c.refs| ==> Legal(c.refs[i])
  }

  function Append(a: Cell, b: Cell): Cell {
    Cell(a.bits + b.bits, a.refs + b.refs)
  }

  lemma {:induction false} AppendIsAssociative(a: Cell, b: Cell, c: Cell)
    ensures Append(Append(a, b), c) == Append(a, Append(b, c))
  {
    assert (a.bits + b.bits) + c.bits == a.bits + (b.bits + c.bits);
    assert (a.refs + b.refs) + c.refs == a.refs + (b.refs + c.refs);
  }

  lemma {:induction false} AppendEmpty(c: Cell)
    ensures Append(c, EMPTY) == c == Append(EMPTY, c)
  {
    assert c.bits + [] == c.bits == [] + c.bits;
    assert c.refs + [] == c.refs == [] + c.refs;
  }

  function Store(builder: Cell, item: Cell): Result<Cell> {
    if Fits(Append(builder, item)) then Ok(Append(builder, item)) else Err
  }

  function StoreRef(builder: Cell, c: Cell): Result<Cell> {
    Store(builder, Cell([], [c]))
  }

  /** How a value is written to a cell of its own, and how it is read from the front of a slice. */
  datatype Codec<!T> = Codec(toCell: T -> Result<Cell>, load: Cell -> Result<(T, Cell)>)

  /** The value is written to a legal cell, and read back whatever follows it. */
  ghost predicate SelfDelimiting<T>(codec: Codec<T>, x: T) {
    && codec.toCell(x).Ok?
    && Fits(codec.toCell(x).value)
    && forall tail: Cell {:trigger Append(codec.toCell(x).value, tail)} ::
         codec.load(Append(codec.toCell(x).value, tail)) == Ok((x, tail))
  }

  /** A successful read consumes at least one bit and takes references from the front. */
  ghost predicate Consumes<T>(codec: Codec<T>) {
    forall s: Cell {:trigger codec.load(s)} :: s.bits != [] && codec.load(s).Ok? ==>
      var rest := codec.load(s).value.1;
      |rest.bits| < |s.bits| && |rest.refs| <= |s.refs| && rest.refs == s.refs[|s.refs| - |rest.refs|..]
  }

  /** Every element in a cell of its own. */
  function EncodeAll<T>(codec: Codec<T>, xs: seq<T>): Result<seq<Cell>> {
    TryMap(codec.toCell, xs)
  }

  /** What a reading loop that has `done` so far ends with. */
  ghost function Onto<T>(done: seq<T>, r: Result<seq<T>>): Result<seq<T>> {
    if r.Ok? then Ok(done + r.value) else Err
  }

  lemma {:induction false} OntoNothing<T>(r: Result<seq<T>>)
    ensures Onto([], r) == r
  {
    if r.Ok? { assert [] + r.value == r.value; }
  }

  lemma {:induction false} OntoStep<T>(done: seq<T>, x: T, r: Result<seq<T>>)
    ensures Onto(done + [x], r) == Onto(done, Onto([x], r))
  {
    if r.Ok? { assert (done + [x]) + r.value == done + ([x] + r.value); }
  }

  lemma {:induction false} OntoOnto<T>(done: seq<T>, more: seq<T>, r: Result<seq<T>>)
    ensures Onto(done, Onto(more, r)) == Onto(done + more, r)
  {
    if r.Ok? { assert (done + more) + r.value == done + (more + r.value); }
  }

  /* ---------- filling builders ---------- */

  /** When the loop opens a new builder for the next item. */
  type Rule = (Cell, Cell) -> bool

  /** The builders after placing `items`, starting in the builder `current`. */
  function Fill(rule: Rule, current: Cell, items: seq<Cell>): (r: Result<seq<Cell>>)
    ensures r.Ok? ==> |r.value| >= 1
    decreases |items|
  {
    if items == [] then Ok([current])
    else if rule(current, items[0]) then
      var started :- Store(EMPTY, items[0]);
      var rest :- Fill(rule, started, items[1..]);
      Ok([current] + rest)
    else
      var grown :- Store(current, items[0]);
      Fill(rule, grown, items[1..])
  }

  /** One turn of a filling loop, which keeps its builders in `cells` and fills the last one. */
  method Place(rule: Rule, cells: seq<Cell>, item: Cell, ghost later: seq<Cell>) returns (r: Result<seq<Cell>>)
    requires |cells| >= 1
    ensures r.Ok? ==> |r.value| >= 1
    ensures Filling(rule, cells, [item] + later) == if r.Err? then Err else Filling(rule, r.value, later)
  {
    var n := |cells| - 1;
    assert ([item] + later)[1..] == later;
    if rule(cells[n], item) {
      var stored := Store(EMPTY, item);
      if stored.Err? { return Err; }
      r := Ok(cells + [stored.value]);
      assert r.value[..n + 1] == cells[..n] + [cells[n]];
      ghost var rest := Fill(rule, stored.value, later);
      if rest.Ok? { assert cells[..n] + ([cells[n]] + rest.value) == (cells[..n] + [cells[n]]) + rest.value; }
    } else {
      var stored := Store(cells[n], item);
      if stored.Err? { return Err; }
      r := Ok(cells[n := stored.value]);
      assert r.value[..n] == cells[..n];
    }
  }

  /** What a loop that has built `cells` so far ends with, once it has placed `later`. */
  ghost function Filling(rule: Rule, cells: seq<Cell>, later: seq<Cell>): Result<seq<Cell>>
    requires |cells| >= 1
  {
    Onto(cells[..|cells| - 1], Fill(rule, cells[|cells| - 1], later))
  }

  lemma {:induction false} FillingStart(rule: Rule, items: seq<Cell>)
    ensures Filling(rule, [EMPTY], items) == Fill(rule, EMPTY, items)
  {
    var r := Fill(rule, EMPTY, items);
    if r.Ok? { assert [] + r.value == r.value; }
  }

  lemma {:induction false} FillingEnd(rule: Rule, cells: seq<Cell>)
    requires |cells| >= 1
    ensures Filling(rule, cells, []) == Ok(cells)
  {
    var n := |cells| - 1;
    assert cells[..n] + [cells[n]] == cells;
  }

  /* ---------- linking ---------- */

  function Link(cells: seq<Cell>): Result<Cell>
    requires |cells| >= 1
  {
    if |cells| == 1 then Ok(cells[0])
    else
      var next :- Link(cells[1..]);
      StoreRef(cells[0], next)
  }

  /** The linking loop, from the last builder to the first. */
  method LinkInReverse(cells: seq<Cell>) returns (r: Result<Cell>)
    requires |cells| >= 1
    ensures r == Link(cells)
  {
    var next := cells[|cells| - 1];
    var i := |cells| - 1;
    while i > 0
      invariant 0 <= i < |cells|
      invariant Link(cells[i..]) == Ok(next)
      invariant Link(cells[i..]).Err? ==> Link(cells).Err?
    {
      LinkErrorsPropagate(cells, i - 1);
      assert cells[i - 1..][1..] == cells[i..];
      var linked := StoreRef(cells[i - 1], next);
      if linked.Err? { return Err; }
      next := linked.value;
      i := i - 1;
    }
    assert cells[0..] == cells;
    r := Ok(next);
  }

  lemma {:induction false} LinkErrorsPropagate(cells: seq<Cell>, i: nat)
    requires i < |cells|
    ensures Link(cells[i..]).Err? ==> Link(cells).Err?
  {
    if i > 0 {
      LinkErrorsPropagate(cells[1..], i - 1);
      assert cells[1..][i - 1..] == cells[i..];
    } else {
      assert cells[0..] == cells;
    }
  }

  /** Pack: fill, then link. */
  function Pack(rule: Rule, items: seq<Cell>): Result<Cell> {
    var cells :- Fill(rule, EMPTY, items);
    Link(cells)
  }

  /** The bits of cells, one after the other. */
  ghost function AllBits(cells: seq<Cell>): seq<bool> {
    if cells == [] then [] else cells[0].bits + AllBits(cells[1..])
  }

  /** The bits along the first references. */
  ghost function ChainBits(c: Cell): seq<bool> {
    c.bits + if c.refs == [] then [] else ChainBits(c.refs[0])
  }

  /** Linking keeps the order of the cells. */
  lemma {:induction false} LinkKeepsBits(cells: seq<Cell>)
    requires |cells| >= 1 && Link(cells).Ok? && forall i :: 0 <= i < |cells| ==> cells[i].refs == []
    ensures ChainBits(Link(cells).value) == AllBits(cells)
    decreases |cells|
  {
    if |cells| == 1 {
      assert AllBits(cells[1..]) == [];
    } else {
      LinkKeepsBits(cells[1..]);
      var next := Link(cells[1..]).value;
      assert Link(cells).value == Cell(cells[0].bits + [], [] + [next]);
      assert cells[0].bits + [] == cells[0].bits && [] + [next] == [next];
    }
  }

  /** Filling keeps the order of the items. */
  lemma {:induction false} FillKeepsBits(rule: Rule, current: Cell, items: seq<Cell>)
    requires Fill(rule, current, items).Ok?
    ensures AllBits(Fill(rule, current, items).value) == current.bits + AllBits(items)
    decreases |items|
  {
    if items == [] {
      assert [current][1..] == [];
      assert AllBits([current]) == current.bits + AllBits([]);
    } else if rule(current, items[0]) {
      AppendEmpty(items[0]);
      FillKeepsBits(rule, items[0], items[1..]);
      var rest := Fill(rule, items[0], items[1..]).value;
      assert ([current] + rest)[1..] == rest;
    } else {
      FillKeepsBits(rule, Append(current, items[0]), items[1..]);
      ConcatIsAssociative(current.bits, items[0].bits, AllBits(items[1..]));
    }
  }

  /** Number of cells along the first references. */
  function ChainLength(c: Cell): nat {
    if c.refs == [] then 1 else 1 + ChainLength(c.refs[0])
  }

  /** Every builder a filling loop ends with is within the limits. */
  lemma {:induction false} FilledCellsFit(rule: Rule, current: Cell, items: seq<Cell>)
    requires Fits(current) && Fill(rule, current, items).Ok?
    ensures forall c :: c in Fill(rule, current, items).value ==> Fits(c)
    decreases |items|
  {
    if items == [] {
    } else {
      if rule(current, items[0]) {
        FilledCellsFit(rule, Store(EMPTY, items[0]).value, items[1..]);
      } else {
        FilledCellsFit(rule, Store(current, items[0]).value, items[1..]);
      }
    }
  }
}
