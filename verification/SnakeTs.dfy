/** `asSnakeData` / `fromSnakeData` of `contracts/src/utils/types.ts`, whose items may carry
    references, and their agreement with the Go packer. */
module SnakeTs {
  import opened Prelude
  import opened Cells
  import opened Chains
  import SnakeData

  const MAX_ITEM_REFS: nat := 3

  /** A new builder is started when the bits do not fit or at most one reference slot is left. */
  function NoRoom(current: Cell, item: Cell): bool {
    MAX_BITS - |current.bits| < |item.bits| || MAX_REFS - |current.refs| <= 1
  }

  function AsSnake(items: seq<Cell>): Result<Cell> {
    if exists i :: 0 <= i < |items| && |items[i].refs| > MAX_ITEM_REFS then Err
    else Pack(NoRoom, items)
  }

  /** `build` is the caller's `builderFn`, applied to every element. */
  method AsSnakeData<T>(xs: seq<T>, build: T -> Cell) returns (r: Result<Cell>)
    ensures r == AsSnake(Built(xs, build))
  {
    var cells := [EMPTY];
    ghost var items := Built(xs, build);
    FillingStart(NoRoom, items);
    for i := 0 to |xs|
      invariant |cells| >= 1
      invariant forall j :: 0 <= j < i ==> |items[j].refs| <= MAX_ITEM_REFS
      invariant Filling(NoRoom, cells, items[i..]) == Fill(NoRoom, EMPTY, items)
    {
      var item := build(xs[i]);
      assert item == items[i];
      if |item.refs| > MAX_ITEM_REFS { return Err; }
      assert items[i..] == [item] + items[i + 1..];
      var placed := Place(NoRoom, cells, item, items[i + 1..]);
      if placed.Err? { return Err; }
      cells := placed.value;
    }
    assert items[|xs|..] == [];
    FillingEnd(NoRoom, cells);
    r := LinkInReverse(cells);
  }

  function Built<T>(xs: seq<T>, build: T -> Cell): (items: seq<Cell>)
    ensures |items| == |xs|
    ensures forall i :: 0 <= i < |xs| ==> items[i] == build(xs[i])
  {
    seq(|xs|, i requires 0 <= i < |xs| => build(xs[i]))
  }

  /* ---------- reading ---------- */

  /** Bits and references left anywhere below a slice: what reading uses up. */
  ghost function Weight(c: Cell): nat {
    |c.bits| + Weights(c.refs)
  }

  ghost function Weights(refs: seq<Cell>): nat {
    if refs == [] then 0 else 1 + Weight(refs[0]) + Weights(refs[1..])
  }

  lemma {:induction false} WeightsOfSuffix(refs: seq<Cell>, k: nat)
    requires k <= |refs|
    ensures Weights(refs[k..]) <= Weights(refs)
  {
    if k == 0 {
      assert refs[0..] == refs;
    } else {
      WeightsOfSuffix(refs[1..], k - 1);
      assert refs[1..][k - 1..] == refs[k..];
    }
  }

  lemma LoadUsesUp<T>(codec: Codec<T>, s: Cell)
    requires Consumes(codec) && s.bits != [] && codec.load(s).Ok?
    ensures Weight(codec.load(s).value.1) < Weight(s)
  {
    WeightsOfSuffix(s.refs, |s.refs| - |codec.load(s).value.1.refs|);
  }

  predicate IsEmpty(s: Cell) {
    s.bits == [] && s.refs == []
  }

  function FromSnake<T>(codec: Codec<T>, s: Cell): Result<seq<T>>
    requires Consumes(codec)
    decreases Weight(s)
  {
    if IsEmpty(s) then Ok([])
    else if s.bits != [] then
      var (x, rest) :- codec.load(s);
      LoadUsesUp(codec, s);
      var xs :- FromSnake(codec, rest);
      Ok([x] + xs)
    else
      assert Weight(s) == 1 + Weight(s.refs[0]) + Weights(s.refs[1..]);
      FromSnake(codec, s.refs[0])
  }

  method FromSnakeData<T>(codec: Codec<T>, data: Cell) returns (r: Result<seq<T>>)
    requires Consumes(codec)
    ensures r == FromSnake(codec, data)
  {
    var items: seq<T> := [];
    var s := data;
    OntoNothing(FromSnake(codec, data));
    while !IsEmpty(s)
      invariant FromSnake(codec, data) == Onto(items, FromSnake(codec, s))
      decreases Weight(s)
    {
      if s.bits != [] {
        var loaded := codec.load(s);
        if loaded.Err? { return Err; }
        LoadUsesUp(codec, s);
        OntoStep(items, loaded.value.0, FromSnake(codec, loaded.value.1));
        items, s := items + [loaded.value.0], loaded.value.1;
      } else {
        s := s.refs[0];
      }
    }
    assert items + [] == items;
    r := Ok(items);
  }

  /* ---------- reading inverts packing ---------- */

  lemma {:induction false} ReadsOne<T>(codec: Codec<T>, x: T, item: Cell, loose: seq<Cell>, inner: Cell)
    requires Consumes(codec) && Written(codec, x, item) && (loose == [] || item.bits == [] || item.refs == [])
    ensures FromSnake(codec, Behind(loose, Append(item, inner))) ==
            Onto(Seen(x, item), FromSnake(codec, Behind(loose + Loose(item), inner)))
  {
    BehindItem(loose, item, inner);
    OntoNothing(FromSnake(codec, Behind(loose + Loose(item), inner)));
  }

  /** What reading goes on with after the items that it reads up to a break. */
  ghost function Beyond<T>(codec: Codec<T>, b: Break): Result<seq<T>>
    requires Consumes(codec)
  {
    if b.stray.None? then Ok([]) else FromSnake(codec, b.stray.value)
  }

  ghost function ReadBack<T>(codec: Codec<T>, xs: seq<T>, b: Break): Result<seq<T>>
    requires Consumes(codec) && b.placed <= |xs|
  {
    Reading(codec, xs, b.placed, Beyond(codec, b))
  }

  ghost function BreakOf(current: Cell, loose: seq<Cell>, items: seq<Cell>): (b: Break)
    ensures b.placed <= |items|
  {
    FirstStray(NoRoom, Loose, current, loose, items)
  }

  lemma {:induction false} ReadBackNone<T>(codec: Codec<T>, xs: seq<T>, b: Break)
    requires Consumes(codec) && b.placed == 0
    ensures ReadBack(codec, xs, b) == Beyond(codec, b)
  {
    assert xs[..0] == [];
    OntoNothing(Beyond(codec, b));
  }

  lemma {:induction false} ReadsFirst<T>(
    codec: Codec<T>, xs: seq<T>, items: seq<Cell>, loose: seq<Cell>, inner: Cell, b: Break)
    requires Consumes(codec) && xs != [] && AllWritten(codec, xs, items) && b.placed < |xs|
    requires loose == [] || items[0].bits == [] || items[0].refs == []
    requires FromSnake(codec, Behind(loose + Loose(items[0]), inner)) == ReadBack(codec, xs[1..], b)
    ensures FromSnake(codec, Behind(loose, Append(items[0], inner))) == ReadBack(codec, xs, Break(b.placed + 1, b.stray))
  {
    ReadsOne(codec, xs[0], items[0], loose, inner);
    ReadingStep(codec, xs, items[0], b.placed, Beyond(codec, b));
  }

  /** The chain that starts with the builder `current` continues with `tail`, from which reading gives the
      items `xs`; `loose` are the references of the builder that no item has taken. */
  ghost predicate Continues<T>(codec: Codec<T>, current: Cell, loose: seq<Cell>, xs: seq<T>, items: seq<Cell>, tail: Cell)
    requires Consumes(codec) && |items| == |xs| && ChainFrom(NoRoom, current, items).Ok?
  {
    && ChainFrom(NoRoom, current, items).value == Append(current, tail)
    && FromSnake(codec, Behind(loose, tail)) == ReadBack(codec, xs, BreakOf(current, loose, items))
  }

  lemma {:induction false} ContinuesAtEnd<T>(codec: Codec<T>, current: Cell, loose: seq<Cell>)
    requires Consumes(codec)
    ensures Continues(codec, current, loose, [], [], EMPTY)
  {
    AppendEmpty(current);
    ReadBackNone(codec, [], BreakOf(current, loose, []));
    assert loose + [] == loose;
  }

  /** The next item starts a new cell. */
  lemma {:induction false} ContinuesLinked<T>(
    codec: Codec<T>, current: Cell, loose: seq<Cell>, xs: seq<T>, items: seq<Cell>, inner: Cell)
    requires Consumes(codec) && xs != [] && AllWritten(codec, xs, items) && NoRoom(current, items[0])
    requires ChainFrom(NoRoom, current, items).Ok? && ChainFrom(NoRoom, items[0], items[1..]).Ok?
    requires Continues(codec, items[0], Loose(items[0]), xs[1..], items[1..], inner)
    ensures Continues(codec, current, loose, xs, items, Cell([], [ChainFrom(NoRoom, items[0], items[1..]).value]))
  {
    ChainLinked(NoRoom, current, items);
    var next := ChainFrom(NoRoom, items[0], items[1..]).value;
    if loose != [] {
      ReadBackNone(codec, xs, BreakOf(current, loose, items));
    } else {
      assert [] + Loose(items[0]) == Loose(items[0]) && [] + [next] == [next];
      ReadsFirst(codec, xs, items, [], inner, BreakOf(items[0], Loose(items[0]), items[1..]));
      BehindNothing(next);
    }
  }

  /** The next item joins the current cell. */
  lemma {:induction false} ContinuesJoined<T>(
    codec: Codec<T>, current: Cell, loose: seq<Cell>, xs: seq<T>, items: seq<Cell>, inner: Cell)
    requires Consumes(codec) && xs != [] && AllWritten(codec, xs, items) && !NoRoom(current, items[0])
    requires loose == [] || items[0].bits == [] || items[0].refs == []
    requires ChainFrom(NoRoom, current, items).Ok?
    requires ChainFrom(NoRoom, current, items) == ChainFrom(NoRoom, Append(current, items[0]), items[1..])
    requires Continues(codec, Append(current, items[0]), loose + Loose(items[0]), xs[1..], items[1..], inner)
    ensures Continues(codec, current, loose, xs, items, Append(items[0], inner))
  {
    AppendIsAssociative(current, items[0], inner);
    ReadsFirst(codec, xs, items, loose, inner, BreakOf(Append(current, items[0]), loose + Loose(items[0]), items[1..]));
  }

  lemma {:induction false} ReadsBack<T>(codec: Codec<T>, current: Cell, loose: seq<Cell>, xs: seq<T>, items: seq<Cell>)
    returns (tail: Cell)
    requires Consumes(codec) && AllWritten(codec, xs, items)
    requires ChainFrom(NoRoom, current, items).Ok? && Tame(NoRoom, current, loose, items)
    ensures Continues(codec, current, loose, xs, items, tail)
    decreases |xs|
  {
    if xs == [] {
      tail := EMPTY;
      ContinuesAtEnd(codec, current, loose);
    } else if NoRoom(current, items[0]) {
      ChainLinked(NoRoom, current, items);
      var inner := ReadsBack(codec, items[0], Loose(items[0]), xs[1..], items[1..]);
      tail := Cell([], [ChainFrom(NoRoom, items[0], items[1..]).value]);
      ContinuesLinked(codec, current, loose, xs, items, inner);
    } else {
      ChainStep(NoRoom, current, items);
      var inner := ReadsBack(codec, Append(current, items[0]), loose + Loose(items[0]), xs[1..], items[1..]);
      tail := Append(items[0], inner);
      ContinuesJoined(codec, current, loose, xs, items, inner);
    }
  }

  /** Whenever packing does not throw, reading returns the items that have bits, references and all, up to
      and including the first cell that holds a loose reference, one of an item without bits; and then
      whatever reading that reference gives, in place of the rest. */
  lemma {:induction false} ReadsUpToBreak<T>(codec: Codec<T>, xs: seq<T>, items: seq<Cell>)
    requires Consumes(codec) && AllWritten(codec, xs, items) && Tame(NoRoom, EMPTY, [], items)
    requires AsSnake(items).Ok?
    ensures FromSnake(codec, AsSnake(items).value) == ReadBack(codec, xs, BreakOf(EMPTY, [], items))
  {
    assert AsSnake(items) == ChainFrom(NoRoom, EMPTY, items);
    var tail := ReadsBack(codec, EMPTY, [], xs, items);
    AppendEmpty(tail);
    BehindNothing(tail);
  }

  /** Exactly when reading returns the list: the items that it sees up to the break are the beginning of
      the list, and the loose reference reads as the rest of it. */
  lemma {:induction false} RoundTripIsExact<T>(codec: Codec<T>, xs: seq<T>, items: seq<Cell>)
    requires Consumes(codec) && AllWritten(codec, xs, items) && Tame(NoRoom, EMPTY, [], items)
    requires AsSnake(items).Ok?
    ensures var b := BreakOf(EMPTY, [], items);
            var seen := Visible(codec, xs[..b.placed]);
            FromSnake(codec, AsSnake(items).value) == Ok(xs) <==>
            |seen| <= |xs| && seen == xs[..|seen|] && Beyond(codec, b) == Ok(xs[|seen|..])
  {
    ReadsUpToBreak(codec, xs, items);
    var b := BreakOf(EMPTY, [], items);
    ReadingIsExactIff(codec, xs, b.placed, Beyond(codec, b));
  }

  /** Without loose references reading returns exactly the items that have bits, in order. */
  lemma {:induction false} FromInvertsAs<T>(codec: Codec<T>, xs: seq<T>, items: seq<Cell>)
    requires Consumes(codec) && AllWritten(codec, xs, items) && AsSnake(items).Ok?
    requires forall i :: 0 <= i < |items| ==> Loose(items[i]) == []
    ensures FromSnake(codec, AsSnake(items).value) == Ok(Visible(codec, xs))
  {
    NoLooseIsTame(NoRoom, EMPTY, items);
    NoStrayIff(NoRoom, Loose, EMPTY, [], items);
    ReadsUpToBreak(codec, xs, items);
    assert xs[..|xs|] == xs && Visible(codec, xs) + [] == Visible(codec, xs);
  }

  /* ---------- when packing never throws ---------- */

  ghost predicate RefCountsIn(items: seq<Cell>, counts: set<nat>) {
    forall i :: 0 <= i < |items| ==> Fits(items[i]) && |items[i].refs| in counts
  }

  /** Reference counts that never fill the slot reserved for the link. */
  ghost predicate Compatible(counts: set<nat>) {
    counts <= {0, 1} || counts <= {0, 3}
  }

  lemma {:induction false} NeverThrows(current: Cell, items: seq<Cell>, counts: set<nat>)
    requires Compatible(counts) && RefCountsIn(items, counts) && Fits(current)
    requires if counts <= {0, 1} then |current.refs| <= 3 else |current.refs| in {0, 3}
    ensures ChainFrom(NoRoom, current, items).Ok?
    decreases |items|
  {
    if items == [] {
    } else {
      ChainStep(NoRoom, current, items);
      if NoRoom(current, items[0]) {
        NeverThrows(items[0], items[1..], counts);
      } else {
        NeverThrows(Append(current, items[0]), items[1..], counts);
      }
    }
  }

  function Item(refs: nat): (c: Cell)
    ensures |c.bits| == 1 && |c.refs| == refs
  {
    Cell([true], seq(refs, _ => EMPTY))
  }

  /** Two items that together take all four slots leave none for the link to a third. */
  lemma {:induction false} FullCellCannotLink(a: Cell, b: Cell, c: Cell)
    requires |a.bits| == |b.bits| == 1 && |a.refs| in {1, 2} && |a.refs| + |b.refs| == 4
    ensures AsSnake([a, b, c]).Err?
  {
    var both := Append(a, b);
    assert [a, b, c][1..] == [b, c] && [b, c][1..] == [c];
    assert Append(EMPTY, a) == a;
    ChainStep(NoRoom, EMPTY, [a, b, c]);
    ChainStep(NoRoom, a, [b, c]);
    ChainStep(NoRoom, both, [c]);
  }

  /** The item shapes that pack in every combination: with at most one reference each, or with
      none or three each. For any other mix some list of one-bit items throws. */
  lemma {:induction false} PacksEveryListIff(counts: set<nat>)
    requires counts <= {0, 1, 2, 3}
    ensures (forall items :: RefCountsIn(items, counts) ==> AsSnake(items).Ok?) <==> Compatible(counts)
  {
    if Compatible(counts) {
      forall items | RefCountsIn(items, counts) ensures AsSnake(items).Ok? {
        NeverThrows(EMPTY, items, counts);
      }
    } else {
      var (p, q) := if 2 in counts then (2, 2) else (1, 3);
      assert p in counts && q in counts;
      var bad := [Item(p), Item(q), Item(p)];
      FullCellCannotLink(Item(p), Item(q), Item(p));
      assert RefCountsIn(bad, counts) && AsSnake(bad).Err?;
    }
  }

  /** An item with more than three references throws, wherever it stands. */
  lemma {:induction false} TooManyRefsThrow(items: seq<Cell>, i: nat)
    requires i < |items| && |items[i].refs| > 3
    ensures AsSnake(items).Err?
  {
  }

  /* ---------- agreement with Go ---------- */

  lemma {:induction false} SameBuilders(current: Cell, items: seq<Cell>)
    requires current.refs == [] && forall i :: 0 <= i < |items| ==> items[i].refs == []
    ensures Fill(NoRoom, current, items) == Fill(SnakeData.OutOfBits, current, items)
    decreases |items|
  {
    if items == [] {
    } else {
      SameBuilders(Append(EMPTY, items[0]), items[1..]);
      SameBuilders(Append(current, items[0]), items[1..]);
    }
  }

  /** On items without references both languages build the same cells, bit for bit. */
  lemma {:induction false} AgreesWithGo<T>(codec: Codec<T>, xs: seq<T>)
    requires EncodeAll(codec, xs).Ok?
    requires forall i :: 0 <= i < |xs| ==> EncodeAll(codec, xs).value[i].refs == []
    ensures AsSnake(EncodeAll(codec, xs).value) == SnakeData.PackStatic(codec, xs)
  {
    SameBuilders(EMPTY, EncodeAll(codec, xs).value);
  }
}
