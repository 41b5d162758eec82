/** `SnakeData`: elements packed bit by bit into linked cells (`pkg/ccip/bindings/common/common.go`). */
module SnakeData {
  import opened Prelude
  import opened Cells
  import opened Chains

  /** A new cell is started when the element's bits do not fit the current one. */
  function OutOfBits(current: Cell, item: Cell): bool {
    |item.bits| > MAX_BITS - |current.bits|
  }

  function PackStatic<T>(codec: Codec<T>, xs: seq<T>): Result<Cell> {
    var items :- EncodeAll(codec, xs);
    Pack(OutOfBits, items)
  }

  method PackArrayWithStaticType<T>(codec: Codec<T>, xs: seq<T>) returns (r: Result<Cell>)
    ensures r == PackStatic(codec, xs)
  {
    var cells := [EMPTY];
    ghost var encoded := EncodeAll(codec, xs);
    if encoded.Ok? { FillingStart(OutOfBits, encoded.value); }
    for i := 0 to |xs|
      invariant |cells| >= 1
      invariant forall j :: 0 <= j < i ==> codec.toCell(xs[j]).Ok?
      invariant encoded.Ok? ==>
                  Filling(OutOfBits, cells, encoded.value[i..]) == Fill(OutOfBits, EMPTY, encoded.value)
    {
      var c := codec.toCell(xs[i]);
      if c.Err? { return Err; }
      ghost var later := if encoded.Ok? then encoded.value[i + 1..] else [];
      if encoded.Ok? { assert encoded.value[i..] == [c.value] + later; }
      var placed := Place(OutOfBits, cells, c.value, later);
      if placed.Err? { return Err; }
      cells := placed.value;
    }
    assert encoded.value[|xs|..] == [];
    FillingEnd(OutOfBits, cells);
    r := LinkInReverse(cells);
  }

  /** Reads elements from the slice `s` of the cell `current`; once its bits are used up, goes on
      with the first reference of the whole cell. */
  function UnpackFrom<T>(codec: Codec<T>, s: Cell, current: Cell): Result<seq<T>>
    requires Consumes(codec)
    decreases current, |s.bits|
  {
    if s.bits != [] then
      var (x, rest) :- codec.load(s);
      var xs :- UnpackFrom(codec, rest, current);
      Ok([x] + xs)
    else if current.refs != [] then
      UnpackFrom(codec, current.refs[0], current.refs[0])
    else Ok([])
  }

  method UnpackArrayWithStaticType<T>(codec: Codec<T>, root: Cell) returns (r: Result<seq<T>>)
    requires Consumes(codec)
    ensures r == UnpackFrom(codec, root, root)
  {
    var result: seq<T> := [];
    var current, s := root, root;
    OntoNothing(UnpackFrom(codec, root, root));
    while true
      invariant UnpackFrom(codec, root, root) == Onto(result, UnpackFrom(codec, s, current))
      decreases current
    {
      while s.bits != []
        invariant UnpackFrom(codec, root, root) == Onto(result, UnpackFrom(codec, s, current))
        decreases |s.bits|
      {
        var loaded := codec.load(s);
        if loaded.Err? { return Err; }
        OntoStep(result, loaded.value.0, UnpackFrom(codec, loaded.value.1, current));
        result, s := result + [loaded.value.0], loaded.value.1;
      }
      if current.refs == [] {
        assert result + [] == result;
        return Ok(result);
      }
      current := current.refs[0];
      s := current;
    }
  }

  /* ---------- what reading gives back ---------- */

  /** Reading one element and then the rest. */
  lemma {:induction false} ReadsOne<T>(codec: Codec<T>, x: T, item: Cell, loose: seq<Cell>, inner: Cell, root: Cell)
    requires Consumes(codec) && Written(codec, x, item) && (loose == [] || item.bits == [] || item.refs == [])
    ensures UnpackFrom(codec, Behind(loose, Append(item, inner)), root) ==
            Onto(Seen(x, item), UnpackFrom(codec, Behind(loose + Loose(item), inner), root))
  {
    BehindItem(loose, item, inner);
    OntoNothing(UnpackFrom(codec, Behind(loose + Loose(item), inner), root));
  }

  /** What unpacking goes on with after the elements that it reads up to a break. */
  ghost function Beyond<T>(codec: Codec<T>, b: Break): Result<seq<T>>
    requires Consumes(codec)
  {
    if b.stray.None? then Ok([]) else UnpackFrom(codec, b.stray.value, b.stray.value)
  }

  ghost function Unpacked<T>(codec: Codec<T>, xs: seq<T>, b: Break): Result<seq<T>>
    requires Consumes(codec) && b.placed <= |xs|
  {
    Reading(codec, xs, b.placed, Beyond(codec, b))
  }

  ghost function BreakOf(current: Cell, items: seq<Cell>): (b: Break)
    ensures b.placed <= |items|
  {
    FirstStray(OutOfBits, Own, current, current.refs, items)
  }

  lemma {:induction false} UnpackedNone<T>(codec: Codec<T>, xs: seq<T>, b: Break)
    requires Consumes(codec) && b.placed == 0
    ensures Unpacked(codec, xs, b) == Beyond(codec, b)
  {
    assert xs[..0] == [];
    OntoNothing(Beyond(codec, b));
  }

  lemma {:induction false} ReadsFirst<T>(
    codec: Codec<T>, xs: seq<T>, items: seq<Cell>, loose: seq<Cell>, inner: Cell, root: Cell, b: Break)
    requires Consumes(codec) && xs != [] && AllWritten(codec, xs, items) && b.placed < |xs|
    requires loose == [] || items[0].bits == [] || items[0].refs == []
    requires UnpackFrom(codec, Behind(loose + Loose(items[0]), inner), root) == Unpacked(codec, xs[1..], b)
    ensures UnpackFrom(codec, Behind(loose, Append(items[0], inner)), root) ==
            Unpacked(codec, xs, Break(b.placed + 1, b.stray))
  {
    ReadsOne(codec, xs[0], items[0], loose, inner, root);
    ReadingStep(codec, xs, items[0], b.placed, Beyond(codec, b));
  }

  /** The chain that starts with the builder `current` continues with `tail`, from which unpacking gives
      the elements `xs`; `loose` are the references of the builder that no element has taken. */
  ghost predicate Continues<T>(codec: Codec<T>, current: Cell, loose: seq<Cell>, xs: seq<T>, items: seq<Cell>, tail: Cell)
    requires Consumes(codec) && |items| == |xs| && ChainFrom(OutOfBits, current, items).Ok?
  {
    var chain := ChainFrom(OutOfBits, current, items).value;
    && chain == Append(current, tail)
    && UnpackFrom(codec, Behind(loose, tail), chain) == Unpacked(codec, xs, BreakOf(current, items))
  }

  lemma {:induction false} ContinuesAtEnd<T>(codec: Codec<T>, current: Cell, loose: seq<Cell>)
    requires Consumes(codec)
    ensures Continues(codec, current, loose, [], [], EMPTY)
  {
    AppendEmpty(current);
    UnpackedNone(codec, [], BreakOf(current, []));
  }

  /** The next element starts a new cell, but a reference stands in front of the link to it. */
  lemma {:induction false} ContinuesBroken<T>(codec: Codec<T>, current: Cell, loose: seq<Cell>, xs: seq<T>, items: seq<Cell>)
    requires Consumes(codec) && xs != [] && AllWritten(codec, xs, items) && OutOfBits(current, items[0])
    requires ChainFrom(OutOfBits, current, items).Ok? && ChainFrom(OutOfBits, items[0], items[1..]).Ok? && current.refs != []
    ensures Continues(codec, current, loose, xs, items, Cell([], [ChainFrom(OutOfBits, items[0], items[1..]).value]))
  {
    ChainLinked(OutOfBits, current, items);
    UnpackedNone(codec, xs, BreakOf(current, items));
  }

  /** The next element starts a new cell. */
  lemma {:induction false} ContinuesLinked<T>(
    codec: Codec<T>, current: Cell, loose: seq<Cell>, xs: seq<T>, items: seq<Cell>, inner: Cell)
    requires Consumes(codec) && xs != [] && AllWritten(codec, xs, items) && OutOfBits(current, items[0])
    requires ChainFrom(OutOfBits, current, items).Ok? && ChainFrom(OutOfBits, items[0], items[1..]).Ok? && current.refs == []
    requires Continues(codec, items[0], Loose(items[0]), xs[1..], items[1..], inner)
    ensures Continues(codec, current, loose, xs, items, Cell([], [ChainFrom(OutOfBits, items[0], items[1..]).value]))
  {
    ChainLinked(OutOfBits, current, items);
    var next := ChainFrom(OutOfBits, items[0], items[1..]).value;
    assert [] + Loose(items[0]) == Loose(items[0]);
    ReadsFirst(codec, xs, items, [], inner, next, BreakOf(items[0], items[1..]));
    BehindNothing(next);
  }

  /** The next element joins the current cell. */
  lemma {:induction false} ContinuesJoined<T>(
    codec: Codec<T>, current: Cell, loose: seq<Cell>, xs: seq<T>, items: seq<Cell>, inner: Cell)
    requires Consumes(codec) && xs != [] && AllWritten(codec, xs, items) && !OutOfBits(current, items[0])
    requires loose == [] || items[0].bits == [] || items[0].refs == []
    requires ChainFrom(OutOfBits, current, items).Ok?
    requires ChainFrom(OutOfBits, current, items) == ChainFrom(OutOfBits, Append(current, items[0]), items[1..])
    requires Continues(codec, Append(current, items[0]), loose + Loose(items[0]), xs[1..], items[1..], inner)
    ensures Continues(codec, current, loose, xs, items, Append(items[0], inner))
  {
    AppendIsAssociative(current, items[0], inner);
    var chain := ChainFrom(OutOfBits, current, items).value;
    ReadsFirst(codec, xs, items, loose, inner, chain, BreakOf(Append(current, items[0]), items[1..]));
  }

  lemma {:induction false} ReadsBack<T>(codec: Codec<T>, current: Cell, loose: seq<Cell>, xs: seq<T>, items: seq<Cell>)
    returns (tail: Cell)
    requires Consumes(codec) && AllWritten(codec, xs, items)
    requires ChainFrom(OutOfBits, current, items).Ok? && Tame(OutOfBits, current, loose, items)
    ensures Continues(codec, current, loose, xs, items, tail)
    decreases |xs|
  {
    if xs == [] {
      tail := EMPTY;
      ContinuesAtEnd(codec, current, loose);
    } else if OutOfBits(current, items[0]) {
      ChainLinked(OutOfBits, current, items);
      var inner := ReadsBack(codec, items[0], Loose(items[0]), xs[1..], items[1..]);
      tail := Cell([], [ChainFrom(OutOfBits, items[0], items[1..]).value]);
      if current.refs != [] {
        ContinuesBroken(codec, current, loose, xs, items);
      } else {
        ContinuesLinked(codec, current, loose, xs, items, inner);
      }
    } else {
      ChainStep(OutOfBits, current, items);
      var inner := ReadsBack(codec, Append(current, items[0]), loose + Loose(items[0]), xs[1..], items[1..]);
      tail := Append(items[0], inner);
      ContinuesJoined(codec, current, loose, xs, items, inner);
    }
  }

  /** Whenever packing succeeds, unpacking returns the visible elements up to and including the first
      cell that holds a reference of an element, followed by whatever unpacking that reference gives. */
  lemma {:induction false} UnpacksUpToBreak<T>(codec: Codec<T>, xs: seq<T>, items: seq<Cell>)
    requires Consumes(codec) && AllWritten(codec, xs, items)
    requires Pack(OutOfBits, items).Ok? && Tame(OutOfBits, EMPTY, [], items)
    ensures var root := Pack(OutOfBits, items).value;
            UnpackFrom(codec, root, root) == Unpacked(codec, xs, BreakOf(EMPTY, items))
  {
    assert Pack(OutOfBits, items) == ChainFrom(OutOfBits, EMPTY, items);
    var tail := ReadsBack(codec, EMPTY, [], xs, items);
    AppendEmpty(tail);
    BehindNothing(tail);
  }

  /** Exactly when the round trip returns the list: the elements up to the break all have bits, as far as
      the list goes, and what stands in front of the link unpacks to the elements that remain. Without a
      break nothing may remain. */
  lemma {:induction false} RoundTripIsExact<T>(codec: Codec<T>, xs: seq<T>, items: seq<Cell>)
    requires Consumes(codec) && AllWritten(codec, xs, items)
    requires Pack(OutOfBits, items).Ok? && Tame(OutOfBits, EMPTY, [], items)
    ensures EncodeAll(codec, xs) == Ok(items) && PackStatic(codec, xs) == Pack(OutOfBits, items)
    ensures var root, b := Pack(OutOfBits, items).value, BreakOf(EMPTY, items);
            var seen := Visible(codec, xs[..b.placed]);
            UnpackFrom(codec, root, root) == Ok(xs) <==>
            |seen| <= |xs| && seen == xs[..|seen|] && Beyond(codec, b) == Ok(xs[|seen|..])
  {
    UnpacksUpToBreak(codec, xs, items);
    EncodesTo(codec, xs, items);
    var b := BreakOf(EMPTY, items);
    ReadingIsExactIff(codec, xs, b.placed, Beyond(codec, b));
  }

  lemma {:induction false} EncodesTo<T>(codec: Codec<T>, xs: seq<T>, items: seq<Cell>)
    requires AllWritten(codec, xs, items)
    ensures EncodeAll(codec, xs) == Ok(items)
  {
    var r := EncodeAll(codec, xs);
    assert forall i :: 0 <= i < |xs| ==> Written(codec, xs[i], items[i]);
    if r.Ok? { assert r.value == items; }
  }

  /** For elements that all have bits: the round trip is exact if and only if no element has a reference
      of its own, or the first reference that stands in front of a link unpacks to exactly the elements of
      the later cells. */
  lemma {:induction false} RoundTripWithRefsIff<T>(codec: Codec<T>, xs: seq<T>, items: seq<Cell>)
    requires Consumes(codec) && AllWritten(codec, xs, items) && Pack(OutOfBits, items).Ok?
    requires forall i :: 0 <= i < |items| ==> items[i].bits != []
    ensures var root, b := Pack(OutOfBits, items).value, BreakOf(EMPTY, items);
            UnpackFrom(codec, root, root) == Ok(xs) <==>
            (forall i :: 0 <= i < |items| ==> items[i].refs == []) ||
            (b.stray.Some? && UnpackFrom(codec, b.stray.value, b.stray.value) == Ok(xs[b.placed..]))
    ensures var b := BreakOf(EMPTY, items); b.stray.Some? ==> exists k :: BreaksAt(OutOfBits, EMPTY, items, b, k)
  {
    var b := BreakOf(EMPTY, items);
    NoLooseIsTame(OutOfBits, EMPTY, items);
    NoStrayIff(OutOfBits, Own, EMPTY, [], items);
    RoundTripIsExact(codec, xs, items);
    forall i | 0 <= i < b.placed ensures HasBits(codec, xs[..b.placed][i]) {
      assert Written(codec, xs[i], items[i]);
    }
    VisibleIsAll(codec, xs[..b.placed]);
    assert xs[|xs|..] == [];
    if b.stray.Some? { var k := FirstStrayIsInCell(OutOfBits, EMPTY, items); }
  }

  /* ---------- elements without references ---------- */

  /** An element type as the packer expects it: no references of its own, and read back from its
      bits whatever follows, unless it has no bits at all. */
  ghost predicate Packable<T>(codec: Codec<T>, x: T) {
    && codec.toCell(x).Ok?
    && Fits(codec.toCell(x).value)
    && codec.toCell(x).value.refs == []
    && (HasBits(codec, x) ==> SelfDelimiting(codec, x))
  }

  lemma {:induction false} FillSucceeds(current: Cell, items: seq<Cell>)
    requires Fits(current) && current.refs == []
    requires forall i :: 0 <= i < |items| ==> Fits(items[i]) && items[i].refs == []
    ensures Fill(OutOfBits, current, items).Ok?
    ensures forall c :: c in Fill(OutOfBits, current, items).value ==> Fits(c) && c.refs == []
    decreases |items|
  {
    if items == [] {
    } else {
      var next := if OutOfBits(current, items[0]) then Append(EMPTY, items[0]) else Append(current, items[0]);
      FillSucceeds(next, items[1..]);
    }
  }

  lemma {:induction false} LinkSucceeds(cells: seq<Cell>)
    requires |cells| >= 1
    requires forall c :: c in cells ==> Fits(c) && c.refs == []
    ensures Link(cells).Ok? && Legal(Link(cells).value)
    ensures Link(cells).value.bits == cells[0].bits
    ensures ChainLength(Link(cells).value) == |cells|
  {
    if |cells| == 1 {
    } else {
      LinkSucceeds(cells[1..]);
    }
  }

  ghost predicate RefFree(items: seq<Cell>) {
    forall i :: 0 <= i < |items| ==> Fits(items[i]) && items[i].refs == []
  }

  lemma {:induction false} PackSucceeds(items: seq<Cell>)
    requires RefFree(items)
    ensures Pack(OutOfBits, items).Ok? && Legal(Pack(OutOfBits, items).value)
  {
    FillSucceeds(EMPTY, items);
    LinkSucceeds(Fill(OutOfBits, EMPTY, items).value);
  }

  /** The bits of the chain are those of the items, one after the other. */
  lemma {:induction false} PackedInOrder(items: seq<Cell>)
    requires RefFree(items)
    ensures Pack(OutOfBits, items).Ok? && ChainBits(Pack(OutOfBits, items).value) == AllBits(items)
  {
    PackSucceeds(items);
    FillSucceeds(EMPTY, items);
    var cells := Fill(OutOfBits, EMPTY, items).value;
    forall i | 0 <= i < |cells| ensures cells[i].refs == [] { assert cells[i] in cells; }
    FillKeepsBits(OutOfBits, EMPTY, items);
    LinkKeepsBits(cells);
    assert [] + AllBits(items) == AllBits(items);
  }

  lemma {:induction false} PackableItems<T>(codec: Codec<T>, xs: seq<T>) returns (items: seq<Cell>)
    requires forall i :: 0 <= i < |xs| ==> Packable(codec, xs[i])
    ensures EncodeAll(codec, xs) == Ok(items) && RefFree(items) && AllWritten(codec, xs, items)
  {
    items := EncodeAll(codec, xs).value;
  }

  /** Items without references are never broken. */
  lemma {:induction false} RefFreeUnpacks<T>(codec: Codec<T>, xs: seq<T>, items: seq<Cell>)
    requires Consumes(codec) && AllWritten(codec, xs, items) && RefFree(items)
    ensures Pack(OutOfBits, items).Ok?
    ensures var root := Pack(OutOfBits, items).value; UnpackFrom(codec, root, root) == Ok(Visible(codec, xs))
  {
    PackSucceeds(items);
    NoLooseIsTame(OutOfBits, EMPTY, items);
    NoStrayIff(OutOfBits, Own, EMPTY, [], items);
    UnpacksUpToBreak(codec, xs, items);
    assert xs[..|xs|] == xs && Visible(codec, xs) + [] == Visible(codec, xs);
  }

  /** Packing a list of packable elements succeeds, yields a legal cell, and unpacking gives back
      exactly the elements that have at least one bit, in order: the round trip is exact if and only if
      all have. */
  lemma {:induction false} RoundTrip<T>(codec: Codec<T>, xs: seq<T>)
    requires Consumes(codec)
    requires forall i :: 0 <= i < |xs| ==> Packable(codec, xs[i])
    ensures PackStatic(codec, xs).Ok? && Legal(PackStatic(codec, xs).value)
    ensures var root := PackStatic(codec, xs).value;
            && UnpackFrom(codec, root, root) == Ok(Visible(codec, xs))
            && (UnpackFrom(codec, root, root) == Ok(xs) <==> forall i :: 0 <= i < |xs| ==> HasBits(codec, xs[i]))
  {
    var items := PackableItems(codec, xs);
    PackSucceeds(items);
    RefFreeUnpacks(codec, xs, items);
    VisibleIsAll(codec, xs);
  }

  /* ---------- witnesses ---------- */

  /** Elements of one bit and a reference of their own, to the same cell for all of them. */
  function BitWithRef(target: Cell): Codec<bool> {
    Codec(
      (x: bool) => Ok(Cell([x], [target])),
      (s: Cell) =>
        if s.bits != [] && s.refs != [] && s.refs[0] == target then Ok((s.bits[0], Cell(s.bits[1..], s.refs[1..]))) else Err)
  }

  lemma {:induction false} BitWithRefIsWritten(target: Cell, x: bool)
    ensures Consumes(BitWithRef(target)) && SelfDelimiting(BitWithRef(target), x)
    ensures Written(BitWithRef(target), x, Cell([x], [target]))
  {
    var codec, c := BitWithRef(target), Cell([x], [target]);
    assert codec.toCell(x) == Ok(c);
    forall tail: Cell ensures codec.load(Append(c, tail)) == Ok((x, tail)) {
      var s := Append(c, tail);
      assert s.bits[1..] == tail.bits && s.refs[1..] == tail.refs;
    }
  }

  /** Such an element always packs, and comes back if and only if its reference unpacks to nothing: it
      does with a reference to an empty cell, and it does not with a reference to a cell of one bit. */
  lemma {:induction false} RefOfElementIsTakenForLink(x: bool, target: Cell)
    ensures Consumes(BitWithRef(target)) && Pack(OutOfBits, [Cell([x], [target])]) == Ok(Cell([x], [target]))
    ensures var root := Cell([x], [target]);
            UnpackFrom(BitWithRef(target), root, root) == Ok([x]) <==> UnpackFrom(BitWithRef(target), target, target) == Ok([])
    ensures target == EMPTY ==> UnpackFrom(BitWithRef(target), target, target) == Ok([])
    ensures target == Cell([true], []) ==> UnpackFrom(BitWithRef(target), target, target).Err?
  {
    var codec, c := BitWithRef(target), Cell([x], [target]);
    BitWithRefIsWritten(target, x);
    AppendEmpty(c);
    assert [c][1..] == [];
    assert Fill(OutOfBits, c, []) == Ok([c]);
    assert Fill(OutOfBits, EMPTY, [c]) == Ok([c]);
    assert BreakOf(c, []) == Break(0, Some(target));
    assert [] + Own(c) == c.refs;
    assert BreakOf(EMPTY, [c]) == Break(1, Some(target));
    RoundTripWithRefsIff(codec, [x], [c]);
    assert [x][1..] == [];
    assert [c][0].refs != [];
  }

  /* ---------- optimality ---------- */

  function TotalBits(items: seq<Cell>): nat {
    if items == [] then 0 else |items[0].bits| + TotalBits(items[1..])
  }

  /** An order-preserving division of `items` into groups that each fit one cell, of 1023 bits. */
  ghost predicate IsSplit(groups: seq<seq<Cell>>, items: seq<Cell>) {
    && |groups| >= 1
    && Flatten(groups) == items
    && forall g :: g in groups ==> TotalBits(g) <= 1023
  }

  ghost function Flatten<A>(groups: seq<seq<A>>): seq<A> {
    if groups == [] then [] else groups[0] + Flatten(groups[1..])
  }

  ghost function CellsUsed(current: Cell, items: seq<Cell>): nat
    requires Fits(current) && current.refs == [] && RefFree(items)
  {
    FillSucceeds(current, items);
    |Fill(OutOfBits, current, items).value|
  }

  /** A fuller current cell never saves a cell. */
  lemma {:induction false} FullerIsNoBetter(a: Cell, b: Cell, items: seq<Cell>)
    requires Fits(a) && Fits(b) && a.refs == [] && b.refs == [] && RefFree(items)
    requires |a.bits| <= |b.bits|
    ensures CellsUsed(a, items) <= CellsUsed(b, items) <= 1 + CellsUsed(a, items)
    decreases |items|
  {
    FillSucceeds(a, items);
    FillSucceeds(b, items);
    if items == [] {
    } else {
      var item, rest := items[0], items[1..];
      var a', b' := Append(a, item), Append(b, item);
      if OutOfBits(a, item) {
        assert CellsUsed(a, items) == 1 + CellsUsed(Append(EMPTY, item), rest);
      } else if OutOfBits(b, item) {
        FullerIsNoBetter(Append(EMPTY, item), a', rest);
        FillSucceeds(a', rest);
        FillSucceeds(Append(EMPTY, item), rest);
      } else {
        FullerIsNoBetter(a', b', rest);
      }
    }
  }

  /** A group that fits the current cell is absorbed by it. */
  lemma {:induction false} Absorbs(current: Cell, group: seq<Cell>, rest: seq<Cell>) returns (full: Cell)
    requires Fits(current) && current.refs == [] && RefFree(group) && RefFree(rest)
    requires |current.bits| + TotalBits(group) <= MAX_BITS
    ensures Fits(full) && full.refs == []
    ensures RefFree(group + rest) && CellsUsed(current, group + rest) == CellsUsed(full, rest)
    decreases |group|
  {
    if group == [] {
      full := current;
      assert group + rest == rest;
    } else {
      full := Absorbs(Append(current, group[0]), group[1..], rest);
      assert (group + rest)[1..] == group[1..] + rest;
    }
  }

  lemma {:induction false} GreedyIsOptimal(items: seq<Cell>, groups: seq<seq<Cell>>)
    requires RefFree(items) && IsSplit(groups, items)
    ensures CellsUsed(EMPTY, items) <= |groups|
    decreases |groups|
  {
    var g, later := groups[0], Flatten(groups[1..]);
    assert items == g + later;
    assert forall i :: 0 <= i < |g| ==> g[i] == items[i];
    assert forall i :: 0 <= i < |later| ==> later[i] == items[|g| + i];
    var full := Absorbs(EMPTY, g, later);
    if |groups| <= 1 {
    } else {
      GreedyIsOptimal(later, groups[1..]);
      FullerIsNoBetter(EMPTY, full, later);
    }
  }

  /** No order-preserving distribution of the elements over cells is shorter than the packed chain. */
  lemma {:induction false} PackedChainIsShortest<T>(codec: Codec<T>, xs: seq<T>, groups: seq<seq<Cell>>)
    requires forall i :: 0 <= i < |xs| ==> Packable(codec, xs[i])
    requires EncodeAll(codec, xs).Ok? && IsSplit(groups, EncodeAll(codec, xs).value)
    ensures PackStatic(codec, xs).Ok? && ChainLength(PackStatic(codec, xs).value) <= |groups|
  {
    var items := EncodeAll(codec, xs).value;
    FillSucceeds(EMPTY, items);
    LinkSucceeds(Fill(OutOfBits, EMPTY, items).value);
    GreedyIsOptimal(items, groups);
  }
}
