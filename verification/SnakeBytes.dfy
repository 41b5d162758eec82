/** `SnakeBytes`: a byte string packed into linked cells of 127 bytes
    (`pkg/ccip/bindings/common/common.go`). */
module SnakeBytes {
  import opened Prelude
  import opened Bits
  import opened Cells

  /** 127 whole bytes fit the 1023 bits of a cell; seven bits stay unused. */
  const BYTES_PER_CELL: nat := 127

  /** The cells before linking: full chunks, and one last chunk that is empty only for empty data. */
  function Chunks(data: seq<Byte>): (cells: seq<Cell>)
    ensures |cells| >= 1
  {
    if |data| <= BYTES_PER_CELL then [Cell(BytesToBits(data), [])]
    else [Cell(BytesToBits(data[..BYTES_PER_CELL]), [])] + Chunks(data[BYTES_PER_CELL..])
  }

  /** Both branches of the loop: write what fits the current cell, or start a new one when not a
      whole byte fits. */
  method PackByteArrayToCell(data: seq<Byte>) returns (r: Result<Cell>)
    ensures r == Link(Chunks(data))
  {
    if data == [] { return Ok(EMPTY); }
    var cells: seq<Cell> := [EMPTY];
    var offset := 0;
    assert data[0..] == data;
    assert [] + Chunks(data) == Chunks(data);
    while offset < |data|
      invariant Writing(cells, data, offset)
      decreases |data| - offset, if FullCell(cells[|cells| - 1]) then 1 else 0
    {
      var n := |cells| - 1;
      var bytesFit := (MAX_BITS - |cells[n].bits|) / 8;
      var remaining := |data| - offset;
      var writeLen := if bytesFit < remaining then bytesFit else remaining;
      if bytesFit > 0 {
        WriteNext(cells, data, offset, writeLen);
        var stored := Store(cells[n], Cell(BytesToBits(data[offset..offset + writeLen]), []));
        if stored.Err? { return Err; }
        cells := cells[n := stored.value];
        offset := offset + writeLen;
      } else {
        OpenCell(cells, data, offset);
        cells := cells + [EMPTY];
      }
    }
    r := LinkInReverse(cells);
  }

  /** The bytes before `offset` are written; the last cell is empty or full, unless nothing is left. */
  ghost predicate Writing(cells: seq<Cell>, data: seq<Byte>, offset: nat) {
    && offset <= |data| && |cells| >= 1
    && if offset == |data| then cells == Chunks(data)
       else
         && StillToWrite(cells, data[offset..]) == Chunks(data)
         && (cells[|cells| - 1] == EMPTY || FullCell(cells[|cells| - 1]))
  }

  lemma {:induction false} OpenCell(cells: seq<Cell>, data: seq<Byte>, offset: nat)
    requires Writing(cells, data, offset) && offset < |data| && FullCell(cells[|cells| - 1])
    ensures Writing(cells + [EMPTY], data, offset)
  {
    assert (cells + [EMPTY])[..|cells|] == cells;
  }

  lemma {:induction false} WriteNext(cells: seq<Cell>, data: seq<Byte>, offset: nat, writeLen: nat)
    requires Writing(cells, data, offset) && offset < |data| && cells[|cells| - 1] == EMPTY
    requires writeLen == if |data| - offset < BYTES_PER_CELL then |data| - offset else BYTES_PER_CELL
    ensures var chunk := Cell(BytesToBits(data[offset..offset + writeLen]), []);
            Store(EMPTY, chunk) == Ok(chunk) && Writing(cells[|cells| - 1 := chunk], data, offset + writeLen)
  {
    WriteChunk(cells, data[offset..], writeLen);
    SplitsAfter(data, offset, writeLen);
  }

  predicate FullCell(c: Cell) {
    |c.bits| == 8 * BYTES_PER_CELL && c.refs == []
  }

  /** What the loop ends with: the cells it has completed, then the chunks of the rest. */
  ghost function StillToWrite(cells: seq<Cell>, rest: seq<Byte>): seq<Cell>
    requires |cells| >= 1
  {
    if FullCell(cells[|cells| - 1]) then cells + Chunks(rest) else cells[..|cells| - 1] + Chunks(rest)
  }

  lemma {:induction false} WriteChunk(cells: seq<Cell>, rest: seq<Byte>, writeLen: nat)
    requires |cells| >= 1 && cells[|cells| - 1] == EMPTY && rest != []
    requires writeLen == if |rest| < BYTES_PER_CELL then |rest| else BYTES_PER_CELL
    ensures var chunk := Cell(BytesToBits(rest[..writeLen]), []);
            var written := cells[|cells| - 1 := chunk];
            && Store(EMPTY, chunk) == Ok(chunk)
            && (writeLen == |rest| ==> written == StillToWrite(cells, rest))
            && (writeLen < |rest| ==> FullCell(chunk) && StillToWrite(written, rest[writeLen..]) == StillToWrite(cells, rest))
  {
    var n := |cells| - 1;
    var chunk := Cell(BytesToBits(rest[..writeLen]), []);
    var written := cells[n := chunk];
    assert Append(EMPTY, chunk) == chunk;
    assert written == cells[..n] + [chunk];
    if writeLen == |rest| {
      assert rest[..writeLen] == rest;
    } else {
      assert cells[..n] + ([chunk] + Chunks(rest[writeLen..])) == written + Chunks(rest[writeLen..]);
    }
  }

  /** The bytes of a chain of cells. */
  function Unload(c: Cell): seq<Byte> {
    BitsToBytes(c.bits) + if c.refs == [] then [] else Unload(c.refs[0])
  }

  /** The same, appended to what the loop has so far. */
  function UnloadOnto(done: seq<Byte>, c: Cell): seq<Byte>
    decreases c
  {
    var more := if c.bits == [] then done else done + BitsToBytes(c.bits);
    if c.refs == [] then more else UnloadOnto(more, c.refs[0])
  }

  lemma {:induction false} UnloadOntoAppends(done: seq<Byte>, c: Cell)
    ensures UnloadOnto(done, c) == done + Unload(c)
    decreases c
  {
    var own := BitsToBytes(c.bits);
    if c.bits == [] { assert done + own == done; }
    if c.refs != [] {
      UnloadOntoAppends(done + own, c.refs[0]);
      ConcatIsAssociative(done, own, Unload(c.refs[0]));
    } else {
      assert own + [] == own;
    }
  }

  method UnloadCellToByteArray(c: Option<Cell>) returns (result: seq<Byte>)
    ensures result == if c.None? then [] else Unload(c.value)
  {
    result := [];
    if c.None? { return; }
    UnloadOntoAppends([], c.value);
    var current := c.value;
    while true
      invariant Unload(c.value) == UnloadOnto(result, current)
      decreases current
    {
      if current.bits != [] { result := result + BitsToBytes(current.bits); }
      if current.refs == [] { return; }
      current := current.refs[0];
    }
  }

  /* ---------- what packing promises ---------- */

  /** The links form one chain; all its cells but the last hold exactly 127 bytes. */
  ghost predicate ChainOf127(c: Cell) {
    && |c.refs| <= 1
    && if c.refs == [] then |c.bits| <= 8 * BYTES_PER_CELL
       else |c.bits| == 8 * BYTES_PER_CELL && ChainOf127(c.refs[0])
  }

  /** Every byte string is packed without an error into a legal chain of max(1, ceil(n / 127))
      cells, all full but the last, and unloading gives it back. */
  lemma {:induction false} RoundTrip(data: seq<Byte>)
    ensures Link(Chunks(data)).Ok?
    ensures var c := Link(Chunks(data)).value;
            && Legal(c) && ChainOf127(c)
            && ChainLength(c) == (if data == [] then 1 else (|data| + 126) / 127)
            && Unload(c) == data
    decreases |data|
  {
    if |data| <= BYTES_PER_CELL {
      BytesRoundTrip(data);
    } else {
      var chunk, rest := data[..BYTES_PER_CELL], data[BYTES_PER_CELL..];
      RoundTrip(rest);
      BytesRoundTrip(chunk);
      assert Chunks(data)[1..] == Chunks(rest);
      var next := Link(Chunks(rest)).value;
      assert Link(Chunks(data)) == Ok(Cell(BytesToBits(chunk), [next])) by {
        assert Append(Cell(BytesToBits(chunk), []), Cell([], [next])) == Cell(BytesToBits(chunk), [next]);
      }
      assert data == chunk + rest;
    }
  }

  lemma {:induction false} BytesToBitsSplits(a: seq<Byte>, b: seq<Byte>)
    ensures BytesToBits(a + b) == BytesToBits(a) + BytesToBits(b)
  {
    if a == [] {
      assert a + b == b;
    } else {
      ConcatTail(a, b);
      BytesToBitsSplits(a[1..], b);
      ConcatIsAssociative(ToBits(a[0], 8), BytesToBits(a[1..]), BytesToBits(b));
    }
  }

  lemma {:induction false} ChunksKeepBits(data: seq<Byte>)
    ensures AllBits(Chunks(data)) == BytesToBits(data)
    ensures forall i :: 0 <= i < |Chunks(data)| ==> Chunks(data)[i].refs == []
    decreases |data|
  {
    if |data| <= BYTES_PER_CELL {
      assert AllBits([]) == [];
    } else {
      var chunk, rest := data[..BYTES_PER_CELL], data[BYTES_PER_CELL..];
      ChunksKeepBits(rest);
      assert data == chunk + rest;
      BytesToBitsSplits(chunk, rest);
      assert Chunks(data)[1..] == Chunks(rest);
    }
  }

  /** The bits of the chain are those of the bytes, in order. */
  lemma {:induction false} PackedInOrder(data: seq<Byte>)
    ensures Link(Chunks(data)).Ok? && ChainBits(Link(Chunks(data)).value) == BytesToBits(data)
  {
    RoundTrip(data);
    ChunksKeepBits(data);
    LinkKeepsBits(Chunks(data));
  }
}
