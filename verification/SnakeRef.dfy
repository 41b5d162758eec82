/** `SnakeRef`: elements stored one per reference in linked cells, three to a cell, the fourth
    reference being the link (`pkg/ccip/bindings/common/common.go`). */
module SnakeRef {
  import opened Prelude
  import opened Cells

  /** A new cell is started when only one reference slot is left. */
  function OneRefLeft(current: Cell, item: Cell): bool {
    MAX_REFS - |current.refs| == 1
  }

  function AsRefs(elements: seq<Cell>): (items: seq<Cell>)
    ensures |items| == |elements|
    ensures forall i :: 0 <= i < |items| ==> items[i] == Cell([], [elements[i]])
  {
    if elements == [] then [] else [Cell([], [elements[0]])] + AsRefs(elements[1..])
  }

  function PackRefs<T>(codec: Codec<T>, xs: seq<T>): Result<Cell> {
    var elements :- EncodeAll(codec, xs);
    Pack(OneRefLeft, AsRefs(elements))
  }

  method PackArrayWithRefChaining<T>(codec: Codec<T>, xs: seq<T>) returns (r: Result<Cell>)
    ensures r == PackRefs(codec, xs)
  {
    var cells := [EMPTY];
    ghost var encoded := EncodeAll(codec, xs);
    ghost var items := if encoded.Ok? then AsRefs(encoded.value) else [];
    FillingStart(OneRefLeft, items);
    for i := 0 to |xs|
      invariant |cells| >= 1
      invariant forall j :: 0 <= j < i ==> codec.toCell(xs[j]).Ok?
      invariant encoded.Ok? ==> Filling(OneRefLeft, cells, items[i..]) == Fill(OneRefLeft, EMPTY, items)
    {
      var c := codec.toCell(xs[i]);
      if c.Err? { return Err; }
      ghost var later := if encoded.Ok? then items[i + 1..] else [];
      if encoded.Ok? { assert items[i..] == [Cell([], [c.value])] + later; }
      var placed := Place(OneRefLeft, cells, Cell([], [c.value]), later);
      if placed.Err? { return Err; }
      cells := placed.value;
    }
    assert items[|xs|..] == [];
    FillingEnd(OneRefLeft, cells);
    r := LinkInReverse(cells);
  }

  /** Each element is read from a cell of its own; what it leaves unread there is ignored. */
  function LoadAll<T>(codec: Codec<T>, refs: seq<Cell>): Result<seq<T>> {
    if refs == [] then Ok([])
    else
      var (x, _) :- codec.load(refs[0]);
      var xs :- LoadAll(codec, refs[1..]);
      Ok([x] + xs)
  }

  function UnpackRefs<T>(codec: Codec<T>, current: Cell): Result<seq<T>> {
    if |current.refs| < MAX_REFS then LoadAll(codec, current.refs)
    else
      var here :- LoadAll(codec, current.refs[..3]);
      var there :- UnpackRefs(codec, current.refs[3]);
      Ok(here + there)
  }

  /** The inner loop over the references that hold elements. */
  method LoadEach<T>(codec: Codec<T>, refs: seq<Cell>) returns (r: Result<seq<T>>)
    ensures r == LoadAll(codec, refs)
  {
    var result: seq<T> := [];
    OntoNothing(LoadAll(codec, refs));
    for i := 0 to |refs|
      invariant LoadAll(codec, refs) == Onto(result, LoadAll(codec, refs[i..]))
    {
      var loaded := codec.load(refs[i]);
      if loaded.Err? { return Err; }
      assert refs[i..][1..] == refs[i + 1..];
      OntoStep(result, loaded.value.0, LoadAll(codec, refs[i + 1..]));
      result := result + [loaded.value.0];
    }
    assert result + [] == result;
    r := Ok(result);
  }

  method UnpackArrayWithRefChaining<T>(codec: Codec<T>, root: Cell) returns (r: Result<seq<T>>)
    requires Legal(root)
    ensures r == UnpackRefs(codec, root)
  {
    var result: seq<T> := [];
    var current := root;
    OntoNothing(UnpackRefs(codec, root));
    while |current.refs| == 4
      invariant Legal(current)
      invariant UnpackRefs(codec, root) == Onto(result, UnpackRefs(codec, current))
      decreases current
    {
      var here := LoadEach(codec, current.refs[..3]);
      if here.Err? { return Err; }
      OntoOnto(result, here.value, UnpackRefs(codec, current.refs[3]));
      result := result + here.value;
      current := current.refs[3];
    }
    var last := LoadEach(codec, current.refs);
    r := if last.Err? then Err else Ok(result + last.value);
  }

  /* ---------- what packing promises ---------- */

  ghost function AllRefs(cells: seq<Cell>): seq<Cell> {
    if cells == [] then [] else cells[0].refs + AllRefs(cells[1..])
  }

  /** Filled cells: three references in every cell but the last, which has at most three, and at
      least one unless it is the only cell. */
  ghost predicate Threes(cells: seq<Cell>) {
    && |cells| >= 1
    && cells[0].bits == []
    && if |cells| == 1 then |cells[0].refs| <= 3
       else |cells[0].refs| == 3 && cells[1].refs != [] && Threes(cells[1..])
  }

  lemma {:induction false} ThreesGrow(c: Cell, cells: seq<Cell>)
    requires c.bits == [] && |c.refs| == 3 && Threes(cells) && cells[0].refs != []
    ensures Threes([c] + cells) && AllRefs([c] + cells) == c.refs + AllRefs(cells)
  {
    assert ([c] + cells)[1..] == cells;
  }

  ghost predicate Holds(filled: Result<seq<Cell>>, refs: seq<Cell>, least: nat) {
    && filled.Ok?
    && Threes(filled.value)
    && AllRefs(filled.value) == refs
    && |filled.value[0].refs| >= least
  }

  lemma {:induction false} FillStep(current: Cell, elements: seq<Cell>)
    requires current.bits == [] && |current.refs| <= 3 && elements != []
    ensures var item, later := Cell([], [elements[0]]), AsRefs(elements[1..]);
            Fill(OneRefLeft, current, AsRefs(elements)) ==
            if |current.refs| == 3 then Onto([current], Fill(OneRefLeft, item, later))
            else Fill(OneRefLeft, Cell([], current.refs + [elements[0]]), later)
  {
    var item := Cell([], [elements[0]]);
    assert AsRefs(elements)[1..] == AsRefs(elements[1..]);
    assert Append(EMPTY, item) == item;
    assert Append(current, item) == Cell([], current.refs + [elements[0]]);
  }

  lemma {:induction false} FillShape(current: Cell, elements: seq<Cell>)
    requires current.bits == [] && |current.refs| <= 3
    ensures Holds(Fill(OneRefLeft, current, AsRefs(elements)), current.refs + elements, |current.refs|)
    decreases |elements|
  {
    if elements == [] {
      assert AllRefs([current]) == current.refs + AllRefs([]);
    } else {
      FillStep(current, elements);
      if |current.refs| == 3 {
        var item := Cell([], [elements[0]]);
        FillShape(item, elements[1..]);
        ThreesGrow(current, Fill(OneRefLeft, item, AsRefs(elements[1..])).value);
        assert [elements[0]] + elements[1..] == elements;
      } else {
        FillShape(Cell([], current.refs + [elements[0]]), elements[1..]);
        ConcatIsAssociative(current.refs, [elements[0]], elements[1..]);
        assert [elements[0]] + elements[1..] == elements;
      }
    }
  }

  lemma {:induction false} LoadAllSplits<T>(codec: Codec<T>, a: seq<Cell>, b: seq<Cell>)
    ensures LoadAll(codec, a + b) ==
            if LoadAll(codec, a).Ok? then Onto(LoadAll(codec, a).value, LoadAll(codec, b)) else Err
  {
    if a == [] {
      assert a + b == b;
      OntoNothing(LoadAll(codec, b));
    } else {
      assert (a + b)[1..] == a[1..] + b;
      LoadAllSplits(codec, a[1..], b);
      var there, first := LoadAll(codec, a[1..]), codec.load(a[0]);
      if first.Ok? && there.Ok? { OntoOnto([first.value.0], there.value, LoadAll(codec, b)); }
    }
  }

  /** A linked cell is legal, has four references exactly where it is not the last, and unpacks to
      the elements of all cells in order: no element is taken for a link. */
  lemma {:induction false} LinkedShape<T>(codec: Codec<T>, cells: seq<Cell>)
    requires Threes(cells)
    requires forall c :: c in AllRefs(cells) ==> Legal(c)
    ensures Link(cells).Ok? && Legal(Link(cells).value)
    ensures |Link(cells).value.refs| == 4 <==> |cells| > 1
    ensures UnpackRefs(codec, Link(cells).value) == LoadAll(codec, AllRefs(cells))
    decreases |cells|
  {
    var own, rest := cells[0].refs, cells[1..];
    assert AllRefs(cells) == own + AllRefs(rest);
    forall i | 0 <= i < |own| ensures Legal(own[i]) { assert AllRefs(cells)[i] == own[i]; }
    if |cells| == 1 {
      assert AllRefs(rest) == [];
      assert own + [] == own;
    } else {
      forall i | 0 <= i < |AllRefs(rest)| ensures Legal(AllRefs(rest)[i]) {
        assert AllRefs(cells)[|own| + i] == AllRefs(rest)[i];
      }
      LinkedShape(codec, rest);
      var next := Link(rest).value;
      var root := Link(cells).value;
      assert root == Cell([], own + [next]);
      assert root.refs[..3] == own && root.refs[3] == next;
      LoadAllSplits(codec, own, AllRefs(rest));
    }
  }

  /** Elements that decode from a cell of their own, each a legal tree of cells. */
  ghost predicate Storable<T>(codec: Codec<T>, x: T) {
    && codec.toCell(x).Ok?
    && Legal(codec.toCell(x).value)
    && codec.load(codec.toCell(x).value).Ok?
    && codec.load(codec.toCell(x).value).value.0 == x
  }

  lemma {:induction false} LoadAllInverts<T>(codec: Codec<T>, xs: seq<T>, elements: seq<Cell>)
    requires |elements| == |xs|
    requires forall i :: 0 <= i < |xs| ==> Storable(codec, xs[i]) && codec.toCell(xs[i]) == Ok(elements[i])
    ensures LoadAll(codec, elements) == Ok(xs)
    decreases |xs|
  {
    if xs == [] {
    } else {
      LoadAllInverts(codec, xs[1..], elements[1..]);
      assert xs == [xs[0]] + xs[1..];
    }
  }

  /** The number of cells of the chain that the fourth references form. */
  function ChainOfFours(c: Cell): nat {
    if |c.refs| < MAX_REFS then 1 else 1 + ChainOfFours(c.refs[3])
  }

  lemma {:induction false} ThreesCount(cells: seq<Cell>)
    requires Threes(cells) && Link(cells).Ok?
    requires forall c :: c in AllRefs(cells) ==> Legal(c)
    ensures ChainOfFours(Link(cells).value) == |cells|
    ensures |cells| == if |AllRefs(cells)| == 0 then 1 else (|AllRefs(cells)| + 2) / 3
    decreases |cells|
  {
    var own, rest := cells[0].refs, cells[1..];
    if |cells| > 1 {
      forall i | 0 <= i < |AllRefs(rest)| ensures Legal(AllRefs(rest)[i]) {
        assert AllRefs(cells)[|own| + i] == AllRefs(rest)[i];
      }
      ThreesCount(rest);
      assert AllRefs(rest) == rest[0].refs + AllRefs(rest[1..]);
      assert Link(cells).value.refs == own + [Link(rest).value];
    } else {
      assert AllRefs(rest) == [];
    }
  }

  /** Every list of storable elements is packed into a legal chain of max(1, ceil(n / 3)) cells, and
      unpacking inverts packing. */
  lemma {:induction false} RoundTrip<T>(codec: Codec<T>, xs: seq<T>)
    requires forall i :: 0 <= i < |xs| ==> Storable(codec, xs[i])
    ensures PackRefs(codec, xs).Ok? && Legal(PackRefs(codec, xs).value)
    ensures UnpackRefs(codec, PackRefs(codec, xs).value) == Ok(xs)
    ensures ChainOfFours(PackRefs(codec, xs).value) == if xs == [] then 1 else (|xs| + 2) / 3
  {
    var elements := EncodeAll(codec, xs).value;
    FillShape(EMPTY, elements);
    var cells := Fill(OneRefLeft, EMPTY, AsRefs(elements)).value;
    assert AllRefs(cells) == elements;
    forall i | 0 <= i < |elements| ensures Legal(elements[i]) { assert Storable(codec, xs[i]); }
    LinkedShape(codec, cells);
    ThreesCount(cells);
    LoadAllInverts(codec, xs, elements);
  }

  /** The elements of a chain: three references of every cell with a link, all of the last. */
  ghost function ElementsOf(c: Cell): seq<Cell> {
    if |c.refs| < 4 then c.refs else c.refs[..3] + ElementsOf(c.refs[3])
  }

  lemma {:induction false} LinkKeepsRefs(cells: seq<Cell>)
    requires Threes(cells) && Link(cells).Ok?
    ensures ElementsOf(Link(cells).value) == AllRefs(cells)
    decreases |cells|
  {
    var own, rest := cells[0].refs, cells[1..];
    if |cells| == 1 {
      assert AllRefs(rest) == [] && own + [] == own;
    } else {
      LinkKeepsRefs(rest);
      var next := Link(rest).value;
      assert Link(cells).value == Cell([], own + [next]);
      assert (own + [next])[..3] == own && (own + [next])[3] == next;
    }
  }

  /** The elements of the chain are the encoded ones, in order. */
  lemma {:induction false} PackedInOrder<T>(codec: Codec<T>, xs: seq<T>, elements: seq<Cell>)
    requires EncodeAll(codec, xs) == Ok(elements) && PackRefs(codec, xs).Ok?
    ensures ElementsOf(PackRefs(codec, xs).value) == elements
  {
    FillShape(EMPTY, elements);
    LinkKeepsRefs(Fill(OneRefLeft, EMPTY, AsRefs(elements)).value);
    assert [] + elements == elements;
  }
}
