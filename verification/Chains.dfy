/** What reading a packed chain of cells depends on: elements that take no bits are skipped, and a
    reference that an element leaves in front of the link is followed in its place. */
module Chains {
  import opened Prelude
  import opened Cells

  /* ---------- elements ---------- */

  predicate HasBits<T>(codec: Codec<T>, x: T) {
    codec.toCell(x).Ok? && codec.toCell(x).value.bits != []
  }

  /** The elements that occupy at least one bit. */
  function Visible<T>(codec: Codec<T>, xs: seq<T>): seq<T> {
    if xs == [] then []
    else if HasBits(codec, xs[0]) then [xs[0]] + Visible(codec, xs[1..])
    else Visible(codec, xs[1..])
  }

  lemma {:induction false} VisibleIsAll<T>(codec: Codec<T>, xs: seq<T>)
    ensures |Visible(codec, xs)| <= |xs|
    ensures Visible(codec, xs) == xs <==> forall i :: 0 <= i < |xs| ==> HasBits(codec, xs[i])
  {
    if xs == [] {
    } else {
      VisibleIsAll(codec, xs[1..]);
      if Visible(codec, xs) == xs {
        assert HasBits(codec, xs[0]);
        assert xs[1..] == Visible(codec, xs)[1..] == Visible(codec, xs[1..]);
        forall i | 0 <= i < |xs| ensures HasBits(codec, xs[i]) {
          if i > 0 { assert xs[i] == xs[1..][i - 1]; }
        }
      }
      if forall i :: 0 <= i < |xs| ==> HasBits(codec, xs[i]) {
        assert forall i :: 0 <= i < |xs[1..]| ==> HasBits(codec, xs[1..][i]);
      }
    }
  }

  /** An element is written to `item`, and read back from its bits, if it has any, whatever follows. */
  ghost predicate Written<T>(codec: Codec<T>, x: T, item: Cell) {
    codec.toCell(x) == Ok(item) && (item.bits != [] ==> SelfDelimiting(codec, x))
  }

  ghost predicate AllWritten<T>(codec: Codec<T>, xs: seq<T>, items: seq<Cell>) {
    |items| == |xs| && forall i :: 0 <= i < |xs| ==> Written(codec, xs[i], items[i])
  }

  /** The element, if reading sees it. */
  function Seen<T>(x: T, item: Cell): seq<T> {
    if item.bits == [] then [] else [x]
  }

  /** What reading ends with: the first `n` elements as far as they are visible, then `rest`. */
  ghost function Reading<T>(codec: Codec<T>, xs: seq<T>, n: nat, rest: Result<seq<T>>): Result<seq<T>>
    requires n <= |xs|
  {
    Onto(Visible(codec, xs[..n]), rest)
  }

  lemma {:induction false} ReadingStep<T>(codec: Codec<T>, xs: seq<T>, item: Cell, n: nat, rest: Result<seq<T>>)
    requires xs != [] && n < |xs| && codec.toCell(xs[0]) == Ok(item)
    ensures Reading(codec, xs, n + 1, rest) == Onto(Seen(xs[0], item), Reading(codec, xs[1..], n, rest))
  {
    assert xs[..n + 1][1..] == xs[1..][..n];
    OntoOnto(Seen(xs[0], item), Visible(codec, xs[1..][..n]), rest);
    assert Visible(codec, xs[..n + 1]) == Seen(xs[0], item) + Visible(codec, xs[1..][..n]);
  }

  /** Reading returns the whole list if and only if what it sees of the first elements is the beginning of
      the list, and the rest is the rest of the list. */
  lemma {:induction false} ReadingIsExactIff<T>(codec: Codec<T>, xs: seq<T>, n: nat, rest: Result<seq<T>>)
    requires n <= |xs|
    ensures var seen := Visible(codec, xs[..n]);
            Reading(codec, xs, n, rest) == Ok(xs) <==>
            |seen| <= |xs| && seen == xs[..|seen|] && rest == Ok(xs[|seen|..])
  {
    var seen := Visible(codec, xs[..n]);
    if rest.Ok? && seen + rest.value == xs {
      assert xs[..|seen|] == seen && xs[|seen|..] == rest.value;
    }
    if |seen| <= |xs| && seen == xs[..|seen|] { assert seen + xs[|seen|..] == xs; }
  }

  /* ---------- chains ---------- */

  /** Linking the builders that filling ends with. */
  ghost function ChainFrom(rule: Rule, current: Cell, items: seq<Cell>): Result<Cell> {
    var cells := Fill(rule, current, items);
    if cells.Ok? then Link(cells.value) else Err
  }

  lemma {:induction false} ChainStep(rule: Rule, current: Cell, items: seq<Cell>)
    requires items != []
    ensures rule(current, items[0]) ==>
              && (Fits(items[0]) && ChainFrom(rule, items[0], items[1..]).Ok? ==>
                   ChainFrom(rule, current, items) == StoreRef(current, ChainFrom(rule, items[0], items[1..]).value))
              && (!Fits(items[0]) || ChainFrom(rule, items[0], items[1..]).Err? ==> ChainFrom(rule, current, items).Err?)
    ensures !rule(current, items[0]) ==>
              ChainFrom(rule, current, items) ==
              if Store(current, items[0]).Ok? then ChainFrom(rule, Append(current, items[0]), items[1..]) else Err
  {
    AppendEmpty(items[0]);
    var rest := Fill(rule, items[0], items[1..]);
    if rest.Ok? { assert ([current] + rest.value)[1..] == rest.value; }
  }

  lemma {:induction false} ChainLinked(rule: Rule, current: Cell, items: seq<Cell>)
    requires items != [] && rule(current, items[0]) && ChainFrom(rule, current, items).Ok?
    ensures ChainFrom(rule, items[0], items[1..]).Ok?
    ensures ChainFrom(rule, current, items).value == Append(current, Cell([], [ChainFrom(rule, items[0], items[1..]).value]))
  {
    ChainStep(rule, current, items);
  }

  /* ---------- references in front of the link ---------- */

  /** All references of an item. */
  function Own(item: Cell): seq<Cell> {
    item.refs
  }

  /** The references that no reader takes with the item, because it has no bits. */
  function Loose(item: Cell): seq<Cell> {
    if item.bits == [] then item.refs else []
  }

  /** How many items are placed up to and including the first cell with a stray reference, and the first
      stray reference of that cell; all of them, and none, if there is no such cell. */
  datatype Break = Break(placed: nat, stray: Option<Cell>)

  function FirstStray(rule: Rule, strays: Cell -> seq<Cell>, current: Cell, stray: seq<Cell>, items: seq<Cell>): (b: Break)
    ensures b.placed <= |items|
    decreases |items|
  {
    if items == [] then Break(0, if stray == [] then None else Some(stray[0]))
    else if rule(current, items[0]) && stray != [] then Break(0, Some(stray[0]))
    else
      var later :=
        if rule(current, items[0]) then FirstStray(rule, strays, items[0], strays(items[0]), items[1..])
        else FirstStray(rule, strays, Append(current, items[0]), stray + strays(items[0]), items[1..]);
      Break(later.placed + 1, later.stray)
  }

  /** There is none if and only if no item brings one. */
  lemma {:induction false} NoStrayIff(rule: Rule, strays: Cell -> seq<Cell>, current: Cell, stray: seq<Cell>, items: seq<Cell>)
    ensures FirstStray(rule, strays, current, stray, items).stray.None? <==>
            stray == [] && forall i :: 0 <= i < |items| ==> strays(items[i]) == []
    ensures FirstStray(rule, strays, current, stray, items).stray.None? ==>
              FirstStray(rule, strays, current, stray, items).placed == |items|
    decreases |items|
  {
    if items == [] {
    } else {
      assert (forall i :: 0 <= i < |items| ==> strays(items[i]) == []) <==>
             strays(items[0]) == [] && forall i :: 0 <= i < |items[1..]| ==> strays(items[1..][i]) == [];
      if rule(current, items[0]) {
        NoStrayIff(rule, strays, items[0], strays(items[0]), items[1..]);
      } else {
        NoStrayIff(rule, strays, Append(current, items[0]), stray + strays(items[0]), items[1..]);
      }
    }
  }

  /** The break of own references, seen on the filled cells: it is in the first cell that has a
      reference, and that cell is filled with the last of the placed items. */
  ghost predicate BreaksAt(rule: Rule, current: Cell, items: seq<Cell>, b: Break, k: nat) {
    var cells := Fill(rule, current, items);
    && cells.Ok? && k < |cells.value| && b.placed <= |items|
    && cells.value[k].refs != [] && b.stray == Some(cells.value[k].refs[0])
    && (forall j :: 0 <= j < k ==> cells.value[j].refs == [])
    && Fill(rule, current, items[..b.placed]) == Ok(cells.value[..k + 1])
  }

  lemma {:induction false} BreaksLater(rule: Rule, current: Cell, items: seq<Cell>, b: Break, k: nat)
    requires items != [] && b.placed < |items| && Fill(rule, current, items).Ok?
    requires rule(current, items[0]) ==>
               current.refs == [] && Store(EMPTY, items[0]).Ok? && BreaksAt(rule, Append(EMPTY, items[0]), items[1..], b, k)
    requires !rule(current, items[0]) ==>
               Store(current, items[0]).Ok? && BreaksAt(rule, Append(current, items[0]), items[1..], b, k)
    ensures BreaksAt(rule, current, items, Break(b.placed + 1, b.stray), if rule(current, items[0]) then k + 1 else k)
  {
    var taken := items[..b.placed + 1];
    assert taken[0] == items[0] && taken[1..] == items[1..][..b.placed];
    if rule(current, items[0]) {
      var rest := Fill(rule, Append(EMPTY, items[0]), items[1..]).value;
      assert ([current] + rest)[..k + 2] == [current] + rest[..k + 1];
    }
  }

  lemma {:induction false} FirstStrayIsInCell(rule: Rule, current: Cell, items: seq<Cell>) returns (k: nat)
    requires Fill(rule, current, items).Ok? && FirstStray(rule, Own, current, current.refs, items).stray.Some?
    ensures BreaksAt(rule, current, items, FirstStray(rule, Own, current, current.refs, items), k)
    decreases |items|
  {
    if items == [] {
      k := 0;
      assert items[..0] == items && [current][..1] == [current];
    } else if rule(current, items[0]) && current.refs != [] {
      k := 0;
      assert items[..0] == [];
      var cells := Fill(rule, current, items).value;
      assert cells[..1] == [current];
    } else {
      AppendEmpty(items[0]);
      var next := if rule(current, items[0]) then items[0] else Append(current, items[0]);
      k := FirstStrayIsInCell(rule, next, items[1..]);
      BreaksLater(rule, current, items, FirstStray(rule, Own, next, next.refs, items[1..]), k);
      k := if rule(current, items[0]) then k + 1 else k;
    }
  }

  /* ---------- slices with loose references ---------- */

  /** The rest of a slice behind loose references that were not taken. */
  function Behind(loose: seq<Cell>, tail: Cell): Cell {
    Cell(tail.bits, loose + tail.refs)
  }

  /** No item that takes references with it follows a loose reference in the same cell: its reader
      would be given the loose one. */
  ghost predicate Tame(rule: Rule, current: Cell, loose: seq<Cell>, items: seq<Cell>)
    decreases |items|
  {
    items == [] ||
    if rule(current, items[0]) then Tame(rule, items[0], Loose(items[0]), items[1..])
    else
      && (loose == [] || items[0].bits == [] || items[0].refs == [])
      && Tame(rule, Append(current, items[0]), loose + Loose(items[0]), items[1..])
  }

  /** Items that are not all references, or have none at all, are tame in every order. */
  lemma {:induction false} NoLooseIsTame(rule: Rule, current: Cell, items: seq<Cell>)
    requires forall i :: 0 <= i < |items| ==> Loose(items[i]) == []
    ensures Tame(rule, current, [], items)
    decreases |items|
  {
    if items == [] {
    } else {
      assert [] + Loose(items[0]) == [];
      NoLooseIsTame(rule, items[0], items[1..]);
      NoLooseIsTame(rule, Append(current, items[0]), items[1..]);
    }
  }

  lemma {:induction false} BehindItem(loose: seq<Cell>, item: Cell, inner: Cell)
    requires loose == [] || item.bits == [] || item.refs == []
    ensures item.bits == [] ==> Behind(loose, Append(item, inner)) == Behind(loose + Loose(item), inner)
    ensures item.bits != [] ==> Behind(loose, Append(item, inner)) == Append(item, Behind(loose + Loose(item), inner))
  {
    assert loose + (item.refs + inner.refs) == (loose + item.refs) + inner.refs;
  }

  lemma {:induction false} BehindNothing(tail: Cell)
    ensures Behind([], tail) == tail
  {
    assert [] + tail.refs == tail.refs;
  }
}
