/** Codecs for the bit fields of the report structs, and the two ways of composing them. */
module Fields {
  import opened Prelude
  import opened Bits
  import opened Cells

  /** Reading takes bits from the front, at least one, and leaves the references alone. */
  ghost predicate Advances<T>(codec: Codec<T>) {
    forall s: Cell {:trigger codec.load(s)} :: codec.load(s).Ok? ==>
      codec.load(s).value.1.refs == s.refs && |codec.load(s).value.1.bits| < |s.bits|
  }

  lemma {:induction false} AdvancesConsumes<T>(codec: Codec<T>)
    requires Advances(codec)
    ensures Consumes(codec)
  {
  }

  /** The field takes `width` bits of its own, no references, and delimits itself. */
  ghost predicate Field<T>(codec: Codec<T>, x: T, width: nat) {
    && SelfDelimiting(codec, x)
    && codec.toCell(x).value.refs == []
    && |codec.toCell(x).value.bits| == width
  }

  function LoadBits(s: Cell, n: nat): Result<(seq<bool>, Cell)> {
    if |s.bits| < n then Err else Ok((s.bits[..n], Cell(s.bits[n..], s.refs)))
  }

  lemma {:induction false} LoadBitsBack(bits: seq<bool>, tail: Cell)
    ensures LoadBits(Append(Cell(bits, []), tail), |bits|) == Ok((bits, tail))
  {
    var s := Append(Cell(bits, []), tail);
    assert s.bits[..|bits|] == bits && s.bits[|bits|..] == tail.bits && s.refs == tail.refs;
  }

  /* ---------- primitive fields ---------- */

  /** An unsigned integer of `width` bits: the tag `## width`. */
  function Uint(width: nat): Codec<nat> {
    Codec(
      (n: nat) => if n < Pow2(width) then Ok(Cell(ToBits(n, width), [])) else Err,
      (s: Cell) => var (bits, rest) :- LoadBits(s, width); Ok((FromBits(bits), rest)))
  }

  lemma {:induction false} UintField(width: nat, n: nat)
    requires 1 <= width <= MAX_BITS && n < Pow2(width)
    ensures Field(Uint(width), n, width) && Advances(Uint(width))
  {
    var codec, c := Uint(width), Cell(ToBits(n, width), []);
    assert codec.toCell(n) == Ok(c);
    forall tail: Cell ensures codec.load(Append(c, tail)) == Ok((n, tail)) {
      LoadBitsBack(c.bits, tail);
      FromToBits(n, width);
    }
  }

  /** Whole bytes: the tag `bits 8*count`. */
  function Bytes(count: nat): Codec<seq<Byte>> {
    Codec(
      (b: seq<Byte>) => if |b| == count then Ok(Cell(BytesToBits(b), [])) else Err,
      (s: Cell) => var (bits, rest) :- LoadBits(s, 8 * count); Ok((BitsToBytes(bits), rest)))
  }

  lemma {:induction false} BytesField(count: nat, b: seq<Byte>)
    requires 1 <= count && 8 * count <= MAX_BITS && |b| == count
    ensures Field(Bytes(count), b, 8 * count) && Advances(Bytes(count))
  {
    var codec, c := Bytes(count), Cell(BytesToBits(b), []);
    assert codec.toCell(b) == Ok(c);
    forall tail: Cell ensures codec.load(Append(c, tail)) == Ok((b, tail)) {
      LoadBitsBack(c.bits, tail);
      BytesRoundTrip(b);
    }
  }

  const MAX_ADDRESS_BYTES: nat := 64

  /** `CrossChainAddress`: a length byte, then 1 to 64 bytes. */
  function CrossChainAddress(): Codec<seq<Byte>> {
    Codec(
      (a: seq<Byte>) =>
        if 1 <= |a| <= MAX_ADDRESS_BYTES then Ok(Cell(ToBits(|a|, 8) + BytesToBits(a), [])) else Err,
      (s: Cell) =>
        var (length, rest) :- LoadBits(s, 8);
        var n := FromBits(length);
        if n < 1 || n > MAX_ADDRESS_BYTES then Err
        else
          var (bits, after) :- LoadBits(rest, 8 * n);
          Ok((BitsToBytes(bits), after)))
  }

  lemma {:induction false} CrossChainAddressBack(a: seq<Byte>, tail: Cell)
    requires 1 <= |a| <= MAX_ADDRESS_BYTES
    ensures CrossChainAddress().load(Append(Cell(ToBits(|a|, 8) + BytesToBits(a), []), tail)) == Ok((a, tail))
  {
    var length, body := ToBits(|a|, 8), BytesToBits(a);
    var inner := Append(Cell(body, []), tail);
    assert Append(Cell(length + body, []), tail) == Append(Cell(length, []), inner) by {
      assert (length + body) + tail.bits == length + (body + tail.bits);
    }
    LoadBitsBack(length, inner);
    LoadBitsBack(body, tail);
    ByteRange();
    FromToBits(|a|, 8);
    BytesRoundTrip(a);
  }

  lemma {:induction false} CrossChainAddressAdvances()
    ensures Advances(CrossChainAddress())
  {
  }

  /** Every address of 1 to 64 bytes is written, as its length and its bytes, and read back; no other
      length is written. */
  lemma {:induction false} CrossChainAddressField(a: seq<Byte>)
    ensures CrossChainAddress().toCell(a).Ok? <==> 1 <= |a| <= 64
    ensures 1 <= |a| <= 64 ==>
              && Field(CrossChainAddress(), a, 8 + 8 * |a|)
              && CrossChainAddress().toCell(a) == Ok(Cell(ToBits(|a|, 8) + BytesToBits(a), []))
  {
    if 1 <= |a| <= 64 {
      var c := Cell(ToBits(|a|, 8) + BytesToBits(a), []);
      assert CrossChainAddress().toCell(a) == Ok(c);
      forall tail: Cell ensures CrossChainAddress().load(Append(c, tail)) == Ok((a, tail)) {
        CrossChainAddressBack(a, tail);
      }
    }
  }

  /* ---------- composition ---------- */

  /** One field after the other in the same cell. */
  function Then<A, B>(first: Codec<A>, second: Codec<B>): Codec<(A, B)> {
    Codec(
      (p: (A, B)) =>
        var a :- first.toCell(p.0);
        var b :- second.toCell(p.1);
        Store(a, b),
      (s: Cell) =>
        var (x, rest) :- first.load(s);
        var (y, after) :- second.load(rest);
        Ok(((x, y), after)))
  }

  lemma {:induction false} ThenField<A, B>(first: Codec<A>, second: Codec<B>, x: A, y: B, m: nat, n: nat)
    requires Field(first, x, m) && Field(second, y, n) && m + n <= MAX_BITS
    ensures Field(Then(first, second), (x, y), m + n)
  {
    var codec, a, b := Then(first, second), first.toCell(x).value, second.toCell(y).value;
    assert codec.toCell((x, y)) == Ok(Append(a, b));
    forall tail: Cell ensures codec.load(Append(Append(a, b), tail)) == Ok(((x, y), tail)) {
      AppendIsAssociative(a, b, tail);
      assert first.load(Append(a, Append(b, tail))) == Ok((x, Append(b, tail)));
    }
  }

  /** The bits of the first field come first. */
  lemma {:induction false} ThenLayout<A, B>(first: Codec<A>, second: Codec<B>, x: A, y: B, a: seq<bool>, b: seq<bool>)
    requires first.toCell(x) == Ok(Cell(a, [])) && second.toCell(y) == Ok(Cell(b, [])) && |a| + |b| <= 1023
    ensures Then(first, second).toCell((x, y)) == Ok(Cell(a + b, []))
  {
    assert Append(Cell(a, []), Cell(b, [])) == Cell(a + b, []);
  }

  lemma {:induction false} ThenAdvances<A, B>(first: Codec<A>, second: Codec<B>)
    requires Advances(first) && Advances(second)
    ensures Advances(Then(first, second))
  {
  }

  /** The same bits under another type. */
  function As<A, B>(codec: Codec<A>, from: B -> A, to: A -> B): Codec<B> {
    Codec(
      (y: B) => codec.toCell(from(y)),
      (s: Cell) => var (x, rest) :- codec.load(s); Ok((to(x), rest)))
  }

  lemma {:induction false} AsField<A, B>(codec: Codec<A>, from: B -> A, to: A -> B, y: B, width: nat)
    requires Field(codec, from(y), width) && to(from(y)) == y
    ensures Field(As(codec, from, to), y, width)
  {
    var c := codec.toCell(from(y)).value;
    forall tail: Cell ensures As(codec, from, to).load(Append(c, tail)) == Ok((y, tail)) {
      assert codec.load(Append(c, tail)) == Ok((from(y), tail));
    }
  }

  lemma {:induction false} AsAdvances<A, B>(codec: Codec<A>, from: B -> A, to: A -> B)
    requires Advances(codec)
    ensures Advances(As(codec, from, to))
  {
  }

  /** A struct of two consecutive fields. */
  lemma {:induction false} StructField<A, B, R>(
    first: Codec<A>, second: Codec<B>, parts: R -> (A, B), make: ((A, B)) -> R, r: R, m: nat, n: nat)
    requires Field(first, parts(r).0, m) && Field(second, parts(r).1, n) && m + n <= MAX_BITS
    requires make(parts(r)) == r
    ensures Field(As(Then(first, second), parts, make), r, m + n)
  {
    ThenField(first, second, parts(r).0, parts(r).1, m, n);
    AsField(Then(first, second), parts, make, r, m + n);
  }

  lemma {:induction false} StructLayout<A, B, R>(
    first: Codec<A>, second: Codec<B>, parts: R -> (A, B), make: ((A, B)) -> R, r: R, a: seq<bool>, b: seq<bool>)
    requires first.toCell(parts(r).0) == Ok(Cell(a, [])) && second.toCell(parts(r).1) == Ok(Cell(b, [])) && |a| + |b| <= 1023
    ensures As(Then(first, second), parts, make).toCell(r) == Ok(Cell(a + b, []))
  {
    ThenLayout(first, second, parts(r).0, parts(r).1, a, b);
  }

  lemma {:induction false} StructAdvances<A, B, R>(first: Codec<A>, second: Codec<B>, parts: R -> (A, B), make: ((A, B)) -> R)
    requires Advances(first) && Advances(second)
    ensures Advances(As(Then(first, second), parts, make))
  {
    ThenAdvances(first, second);
    AsAdvances(Then(first, second), parts, make);
  }

  /* ---------- integers of fixed width ---------- */

  function Nat64(n: Uint64): nat { n }
  function To64(n: nat): Uint64 { if n < TWO_TO_64 then n else 0 }
  function U64(): Codec<Uint64> { As(Uint(64), Nat64, To64) }

  lemma {:induction false} U64Field(n: Uint64)
    ensures Field(U64(), n, 64) && Advances(U64())
  {
    Width64();
    UintField(64, n);
    AsField(Uint(64), Nat64, To64, n, 64);
    AsAdvances(Uint(64), Nat64, To64);
  }

  function Nat256(n: Uint256): nat { n }
  function To256(n: nat): Uint256 { if n < TWO_TO_256 then n else 0 }
  function U256(): Codec<Uint256> { As(Uint(256), Nat256, To256) }

  lemma {:induction false} U256Field(n: Uint256)
    ensures Field(U256(), n, 256) && Advances(U256())
  {
    Width256();
    UintField(256, n);
    AsField(Uint(256), Nat256, To256, n, 256);
    AsAdvances(Uint(256), Nat256, To256);
  }

  /** Most significant bit first. */
  lemma {:induction false} U64Layout(n: Uint64)
    ensures U64().toCell(n) == Ok(Cell(ToBits(n, 64), []))
  {
    Width64();
    assert Uint(64).toCell(Nat64(n)) == Ok(Cell(ToBits(n, 64), []));
  }

  lemma {:induction false} U256Layout(n: Uint256)
    ensures U256().toCell(n) == Ok(Cell(ToBits(n, 256), []))
  {
    Width256();
    assert Uint(256).toCell(Nat256(n)) == Ok(Cell(ToBits(n, 256), []));
  }
}
