/** Merkle proofs on their way to the contract: packed by `asSnakeData` as 256-bit words
    (`contracts/src/mcms/merkle-proof.ts`), read back word by word. */
module MerkleSnake {
  import opened Prelude
  import opened Bits
  import opened Cells
  import opened Chains
  import opened Fields
  import Merkle
  import SnakeTs

  function WordCell(w: Merkle.Word): Cell { Cell(ToBits(w, 256), []) }

  lemma {:induction false} WordField(w: Merkle.Word)
    ensures Field(U256(), w, 256) && Advances(U256())
    ensures U256().toCell(w) == Ok(WordCell(w))
  {
    U256Field(w);
    U256Layout(w);
  }

  /** Every proof, of any length, is packed without an error and read back unchanged. */
  lemma {:induction false} ProofSurvivesPacking(proof: seq<Merkle.Word>)
    ensures Consumes(U256())
    ensures var packed := SnakeTs.AsSnake(SnakeTs.Built(proof, WordCell));
            packed.Ok? && SnakeTs.FromSnake(U256(), packed.value) == Ok(proof)
  {
    WordField(0);
    AdvancesConsumes(U256());
    var items := SnakeTs.Built(proof, WordCell);
    forall i | 0 <= i < |proof|
      ensures Written(U256(), proof[i], items[i]) && Loose(items[i]) == [] && HasBits(U256(), proof[i])
    {
      WordField(proof[i]);
    }
    SnakeTs.NeverThrows(EMPTY, items, {0});
    SnakeTs.FromInvertsAs(U256(), proof, items);
    VisibleIsAll(U256(), proof);
  }
}
